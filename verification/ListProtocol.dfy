/** The list directory as a state machine: any number of ezmlm-send and ezmlm-get digest
    processes, interleaved file access by file access. Both lock the file `lock`, but a digest
    reads `num` before it has the lock. Any process may die at any point; death closes the
    lock file and so frees the lock. */
module ListProtocol {

  import opened Options

  // The contents of `num` and of `dignum`; an absent file reads as zeros.
  datatype Counter = Counter(max: nat, cum: nat)

  // What became of a message number, in the order in which numbers were settled.
  // `listed` says whether the attempt that was settled wrote an index entry.
  datatype Message = Message(number: nat, size: nat, accepted: bool, listed: bool)

  // What became of a range of digested numbers; `issue` is the issue number it was given.
  datatype Digest = Digest(issue: nat, lo: nat, hi: nat, cum: nat, queued: bool)

  datatype Dir = Dir(
    // files
    num: Counter,
    dignum: Counter,
    digissue: nat,
    index: map<nat, seq<nat>>,
    // observers: what the queue has accepted or what was lost to a death, and the number of
    // deaths between the first write of a commit and its outcome
    messages: seq<Message>,
    digests: seq<Digest>,
    kills: nat)

  // What a digest run works with once it has read everything.
  datatype Plan = Plan(max: nat, cumsizen: nat, prev: Counter, issue: nat)

  /** The program counter of a process with the variables that are live there. */
  datatype Process =
    // ezmlm-send; `listed` holds if the list is indexed and a blank line ends the message's header,
    // for only that line makes the program write an index entry (lines 497-501)
    | SendStart(size: nat, listed: bool)
    | SendLocked(msgnum: nat, cumsize: nat, size: nat, listed: bool)
    | SendCopied(msgnum: nat, cumsize: nat, size: nat, listed: bool)
    | SendWritten(msgnum: nat, cumsize: nat, size: nat, listed: bool)
    | SendFailed(msgnum: nat, cumsize: nat, size: nat, listed: bool)
    // ezmlm-get, digest branch
    | DigStart
    | DigRead(read: Counter)
    | DigLocked(read: Counter)
    | DigRange(plan: Plan)
    | DigIssued(plan: Plan)
    | DigCommitted(plan: Plan)
    | DigFailed(plan: Plan)
    | DigIssueBack(plan: Plan)
    // either, about to exit with the lock still held; also stands for "nobody holds the lock"
    | Done
  {
    predicate HoldsLock() {
      !SendStart? && !DigStart? && !DigRead?
    }

    predicate WantsLock() {
      SendStart? || DigRead?
    }

    predicate AwaitsQueue() {
      SendWritten? || DigCommitted?
    }
  }

  datatype Action = Go | QueueClose(ok: bool) | Die

  /** The archive size in 256-byte records, ezmlm-send.c line 687. */
  function Records(size: nat): nat {
    (size + 128) / 256
  }

  /** Rounding to the nearest 256 bytes. */
  lemma RecordsRound(size: nat)
    ensures 256 * Records(size) - 128 <= size < 256 * Records(size) + 128
  {
  }

  function Index(dir: Dir, d: nat): seq<nat> {
    if d in dir.index then dir.index[d] else []
  }

  /** The entries that the copy loop keeps: those before the first entry of `outnum` or more. */
  function Below(entries: seq<nat>, outnum: nat): seq<nat> {
    if entries == [] || entries[0] >= outnum then [] else [entries[0]] + Below(entries[1..], outnum)
  }

  /** The index files after the entry for `n` was inserted. */
  function Inserted(dir: Dir, n: nat): map<nat, seq<nat>> {
    dir.index[n / 100 := Below(Index(dir, n / 100), n) + [n]]
  }

  function Monus(a: nat, b: nat): nat {
    if a < b then 0 else a - b
  }

  /** A sender's next file access, or the answer of the queue, or its death. */
  function SendStep(dir: Dir, p: Process, a: Action): (Dir, Option<Process>) {
    match (a, p)
    case (Go, SendStart(size, listed)) =>
      // lockfile, getconf_ulong2, ++msgnum
      (dir, Some(SendLocked(dir.num.max + 1, dir.num.cum, size, listed)))
    case (Go, SendLocked(n, c, size, listed)) =>
      // idx_copy_insertsubject, if the message is to be listed
      (if listed then dir.(index := Inserted(dir, n)) else dir, Some(SendCopied(n, c, size, listed)))
    case (Go, SendCopied(n, c, size, listed)) =>
      // numwrite
      var cum := c + Records(size);
      (dir.(num := Counter(n, cum)), Some(SendWritten(n, cum, size, listed)))
    case (QueueClose(true), SendWritten(n, c, size, listed)) =>
      (dir.(messages := dir.messages + [Message(n, size, true, listed)]), Some(Done))
    case (QueueClose(false), SendWritten(n, c, size, listed)) =>
      (dir, Some(SendFailed(n, c, size, listed)))
    case (Go, SendFailed(n, c, size, _)) =>
      // --msgnum, numwrite
      (dir.(num := Counter(Monus(n, 1), Monus(c, Records(size)))), Some(Done))
    case (Die, SendWritten(n, c, size, listed)) =>
      (dir.(messages := dir.messages + [Message(n, size, false, listed)], kills := dir.kills + 1), None)
    case (Die, SendFailed(n, c, size, listed)) =>
      (dir.(messages := dir.messages + [Message(n, size, false, listed)], kills := dir.kills + 1), None)
    case _ => (dir, None)
  }

  /** The same for a digest run. */
  function DigestStep(dir: Dir, p: Process, a: Action): (Dir, Option<Process>) {
    match (a, p)
    case (Go, DigStart) =>
      // get_num, without the lock
      (dir, Some(DigRead(dir.num)))
    case (Go, DigRead(read)) =>
      // lockup
      (dir, Some(DigLocked(read)))
    case (Go, DigLocked(read)) =>
      // read dignum and digissue; nothing new is an error
      if read.max == 0 || dir.dignum.max + 1 > read.max then (dir, None)
      else (dir, Some(DigRange(Plan(read.max, read.cum, dir.dignum, dir.digissue + 1))))
    case (Go, DigRange(plan)) =>
      (dir.(digissue := plan.issue), Some(DigIssued(plan)))
    case (Go, DigIssued(plan)) =>
      (dir.(dignum := Counter(plan.max, plan.cumsizen)), Some(DigCommitted(plan)))
    case (QueueClose(true), DigCommitted(plan)) =>
      (dir.(digests := dir.digests + [Settle(plan, true)]), Some(Done))
    case (QueueClose(false), DigCommitted(plan)) =>
      (dir, Some(DigFailed(plan)))
    case (Go, DigFailed(plan)) =>
      // issue--
      (dir.(digissue := Monus(plan.issue, 1)), Some(DigIssueBack(plan)))
    case (Go, DigIssueBack(plan)) =>
      (dir.(dignum := plan.prev), Some(Done))
    case (Die, DigIssued(plan)) =>
      (dir.(kills := dir.kills + 1), None)
    case (Die, DigCommitted(plan)) => Lose(dir, plan)
    case (Die, DigFailed(plan)) => Lose(dir, plan)
    case (Die, DigIssueBack(plan)) => Lose(dir, plan)
    case _ => (dir, None)
  }

  function Settle(plan: Plan, queued: bool): Digest {
    Digest(plan.issue, plan.prev.max + 1, plan.max, plan.cumsizen, queued)
  }

  function Lose(dir: Dir, plan: Plan): (Dir, Option<Process>) {
    (dir.(digests := dir.digests + [Settle(plan, false)], kills := dir.kills + 1), None)
  }

  predicate IsSender(p: Process) {
    p.SendStart? || p.SendLocked? || p.SendCopied? || p.SendWritten? || p.SendFailed?
  }

  function Step(dir: Dir, p: Process, a: Action): (Dir, Option<Process>) {
    if IsSender(p) then SendStep(dir, p, a) else DigestStep(dir, p, a)
  }

  // ---- any number of processes ----

  datatype State = State(dir: Dir, lock: Option<nat>, procs: map<nat, Process>)

  const INITIAL: State := State(Dir(Counter(0, 0), Counter(0, 0), 0, map[], [], [], 0), None, map[])

  datatype Event = Start(pid: nat, process: Process) | Act(pid: nat, action: Action)

  predicate Enabled(s: State, e: Event) {
    match e
    case Start(pid, p) => pid !in s.procs && (p.SendStart? || p.DigStart?)
    case Act(pid, a) =>
      && pid in s.procs
      && (a.Go? ==> !s.procs[pid].AwaitsQueue() && (s.procs[pid].WantsLock() ==> s.lock.None?))
      && (a.QueueClose? ==> s.procs[pid].AwaitsQueue())
  }

  function Apply(s: State, e: Event): State
    requires Enabled(s, e)
  {
    match e
    case Start(pid, p) => s.(procs := s.procs[pid := p])
    case Act(pid, a) =>
      var (dir, next) := Step(s.dir, s.procs[pid], a);
      if next.None? then State(dir, if s.lock == Some(pid) then None else s.lock, s.procs - {pid})
      else State(dir, if next.value.HoldsLock() then Some(pid) else s.lock, s.procs[pid := next.value])
  }

  /** A digest reads `num` while a sender waits for the queue or has not yet rolled back. */
  predicate DirtyRead(s: State, e: Event) {
    && e.Act? && e.action.Go? && e.pid in s.procs && s.procs[e.pid].DigStart?
    && (Holder(s).SendWritten? || Holder(s).SendFailed?)
  }

  ghost predicate IsRun(s: State, events: seq<Event>)
    decreases |events|
  {
    events == [] || (Enabled(s, events[0]) && IsRun(Apply(s, events[0]), events[1..]))
  }

  ghost function Run(s: State, events: seq<Event>): State
    requires IsRun(s, events)
    decreases |events|
  {
    if events == [] then s else Run(Apply(s, events[0]), events[1..])
  }

  ghost predicate NoDirtyReads(s: State, events: seq<Event>)
    requires IsRun(s, events)
    decreases |events|
  {
    events != [] ==> !DirtyRead(s, events[0]) && NoDirtyReads(Apply(s, events[0]), events[1..])
  }

  // ---- the invariant: of the directory while `h` holds the lock ----

  function SizeSum(ms: seq<Message>): nat {
    if ms == [] then 0 else SizeSum(ms[..|ms| - 1]) + Records(ms[|ms| - 1].size)
  }

  /** The last number that settled digests cover, and the size that goes with it. */
  function Covered(ds: seq<Digest>): Counter {
    if ds == [] then Counter(0, 0) else Counter(ds[|ds| - 1].hi, ds[|ds| - 1].cum)
  }

  ghost predicate Numbered(ms: seq<Message>) {
    forall i :: 0 <= i < |ms| ==> ms[i].number == i + 1
  }

  /** Numbers are settled in order, each once; `num` is what is settled plus at most the number in flight. */
  ghost predicate NumInv(dir: Dir, h: Process) {
    var settled := Counter(|dir.messages|, SizeSum(dir.messages));
    && Numbered(dir.messages)
    && match h
       case SendLocked(n, c, _, _) => dir.num == settled && n == settled.max + 1 && c == settled.cum
       case SendCopied(n, c, _, _) => dir.num == settled && n == settled.max + 1 && c == settled.cum
       case SendWritten(n, c, size, _) =>
         dir.num == Counter(n, c) && n == settled.max + 1 && c == settled.cum + Records(size)
       case SendFailed(n, c, size, _) =>
         dir.num == Counter(n, c) && n == settled.max + 1 && c == settled.cum + Records(size)
       case _ => dir.num == settled
  }

  ghost predicate Increasing(entries: seq<nat>) {
    forall i, j :: 0 <= i < j < |entries| ==> entries[i] < entries[j]
  }

  /** Index file `d` lists, in order, numbers of its hundred that are settled or the next; among them are all
      those whose own attempt was to be listed. */
  ghost predicate IndexInv(dir: Dir, h: Process) {
    var next := |dir.messages| + 1;
    && (forall d: nat :: Increasing(Index(dir, d)))
    && (forall d: nat, n: nat :: n in Index(dir, d) ==> 1 <= n <= next && n / 100 == d)
    && (forall n: nat :: 1 <= n < next && dir.messages[n - 1].listed ==> n in Index(dir, n / 100))
    && (NumberInIndex(h) ==> next in Index(dir, next / 100))
  }

  /** The sender has inserted its number. */
  predicate NumberInIndex(h: Process) {
    (h.SendCopied? || h.SendWritten? || h.SendFailed?) && h.listed
  }

  /** Every range is non-empty and starts where the one before it ends. */
  ghost predicate Adjacent(ds: seq<Digest>) {
    forall i :: 0 <= i < |ds| ==> ds[i].lo == Covered(ds[..i]).max + 1 <= ds[i].hi
  }

  ghost predicate PlanFits(dir: Dir, plan: Plan) {
    Covered(dir.digests) == plan.prev && plan.prev.max < plan.max && plan.issue >= 1
  }

  ghost predicate DignumInv(dir: Dir, h: Process) {
    && Adjacent(dir.digests)
    && match h
       case DigRange(plan) => PlanFits(dir, plan) && dir.dignum == plan.prev && plan.issue == dir.digissue + 1
       case DigIssued(plan) => PlanFits(dir, plan) && dir.dignum == plan.prev && plan.issue == dir.digissue
       case DigCommitted(plan) =>
         PlanFits(dir, plan) && dir.dignum == Counter(plan.max, plan.cumsizen) && plan.issue == dir.digissue
       case DigFailed(plan) =>
         PlanFits(dir, plan) && dir.dignum == Counter(plan.max, plan.cumsizen) && plan.issue == dir.digissue
       case DigIssueBack(plan) =>
         PlanFits(dir, plan) && dir.dignum == Counter(plan.max, plan.cumsizen) && plan.issue == dir.digissue + 1
       case _ => dir.dignum == Covered(dir.digests)
  }

  /** The issue number that the last settled digest may have had. */
  function SettledIssue(dir: Dir, h: Process): int {
    if h.DigIssued? || h.DigCommitted? || h.DigFailed? then dir.digissue - 1 else dir.digissue
  }

  /** Issue numbers of queued digests increase; without deaths inside a commit they are 1, 2, 3, ... */
  ghost predicate IssueInv(dir: Dir, h: Process) {
    var ds := dir.digests;
    && 0 <= SettledIssue(dir, h)
    && (forall i :: 0 <= i < |ds| && ds[i].queued ==> 1 <= ds[i].issue <= SettledIssue(dir, h))
    && IssuesIncrease(ds)
    && (dir.kills == 0 ==> SettledIssue(dir, h) == |ds| && AllQueued(dir))
  }

  ghost predicate AllQueued(dir: Dir) {
    && (forall i :: 0 <= i < |dir.digests| ==> dir.digests[i].queued && dir.digests[i].issue == i + 1)
    && (forall i :: 0 <= i < |dir.messages| ==> dir.messages[i].accepted)
  }

  /** What a digest has read exceeds what is settled by at most `slack`. The read is not locked, so
      `slack` is 1 unless every read avoids the senders that still wait for the queue. */
  predicate ReadInv(dir: Dir, p: Process, slack: nat) {
    var limit := |dir.messages| + slack;
    match p
    case DigRead(read) => read.max <= limit
    case DigLocked(read) => read.max <= limit
    case DigRange(plan) => plan.max <= limit
    case DigIssued(plan) => plan.max <= limit
    case DigCommitted(plan) => plan.max <= limit
    case DigFailed(plan) => plan.max <= limit
    case DigIssueBack(plan) => plan.max <= limit
    case _ => true
  }

  ghost predicate DirInv(dir: Dir, h: Process, slack: nat) {
    && NumInv(dir, h) && IndexInv(dir, h) && DignumInv(dir, h) && IssueInv(dir, h)
    && Covered(dir.digests).max <= |dir.messages| + slack
  }

  function Holder(s: State): Process {
    if s.lock.Some? && s.lock.value in s.procs then s.procs[s.lock.value] else Done
  }

  ghost predicate LockInv(s: State) {
    && (s.lock.Some? ==> s.lock.value in s.procs)
    && forall pid :: pid in s.procs ==> (s.procs[pid].HoldsLock() <==> s.lock == Some(pid))
  }

  ghost predicate Inv(s: State, slack: nat) {
    && LockInv(s)
    && DirInv(s.dir, Holder(s), slack)
    && forall pid :: pid in s.procs ==> ReadInv(s.dir, s.procs[pid], slack)
  }

  // ---- every step keeps it ----

  /** On a sorted index the copy loop keeps exactly the smaller entries. */
  lemma {:induction false} BelowKeeps(entries: seq<nat>, n: nat)
    requires Increasing(entries)
    ensures Below(entries, n) <= entries
    ensures forall k :: k in Below(entries, n) <==> k in entries && k < n
  {
    if entries != [] && entries[0] < n {
      BelowKeeps(entries[1..], n);
      assert entries == [entries[0]] + entries[1..];
    }
  }

  lemma BelowIncreasing(entries: seq<nat>, n: nat)
    requires Increasing(entries)
    ensures Increasing(Below(entries, n) + [n])
  {
    BelowKeeps(entries, n);
    var es := Below(entries, n) + [n];
    forall i, j | 0 <= i < j < |es| ensures es[i] < es[j] {
      assert es[i] in Below(entries, n);
      if j < |es| - 1 {
        assert es[i] == entries[i] && es[j] == entries[j];
      }
    }
  }

  lemma AdjacentAppend(ds: seq<Digest>, d: Digest)
    requires Adjacent(ds) && d.lo == Covered(ds).max + 1 <= d.hi
    ensures Adjacent(ds + [d]) && Covered(ds + [d]) == Counter(d.hi, d.cum)
  {
    var es := ds + [d];
    forall i | 0 <= i < |es| ensures es[i].lo == Covered(es[..i]).max + 1 <= es[i].hi {
      assert es[..i] == ds[..i];
      assert ds[..|ds|] == ds;
    }
  }

  /** The process that holds the lock after a step of the process that held it. */
  function After(next: Option<Process>): Process {
    if next.None? then Done else next.value
  }

  ghost predicate Allowed(p: Process, a: Action) {
    (a.Go? ==> !p.AwaitsQueue()) && (a.QueueClose? ==> p.AwaitsQueue())
  }

  lemma SendNum(dir: Dir, p: Process, a: Action)
    requires IsSender(p) && p.HoldsLock() && Allowed(p, a) && NumInv(dir, p)
    ensures var (dir', next) := SendStep(dir, p, a); NumInv(dir', After(next))
  {
    var (dir', next) := SendStep(dir, p, a);
    if |dir'.messages| > |dir.messages| {
      assert dir'.messages[..|dir'.messages| - 1] == dir.messages;
    }
  }

  /** Inserting the next number drops no other number from the index. */
  lemma InsertedHolds(dir: Dir, n: nat, dir': Dir, k: nat)
    requires forall d: nat :: Increasing(Index(dir, d)) && forall j: nat :: j in Index(dir, d) ==> j <= n
    requires dir'.index == Inserted(dir, n)
    ensures k in Index(dir', k / 100) <==> k in Index(dir, k / 100) || k == n
  {
    var d := n / 100;
    BelowKeeps(Index(dir, d), n);
    assert k / 100 != d ==> Index(dir', k / 100) == Index(dir, k / 100);
    assert k in Index(dir', d) <==> k in Below(Index(dir, d), n) || k == n;
  }

  lemma InsertKeepsIndex(dir: Dir, n: nat, dir': Dir, h: Process, h': Process)
    requires IndexInv(dir, h) && n == |dir.messages| + 1 && dir'.messages == dir.messages
    requires dir'.index == Inserted(dir, n)
    ensures IndexInv(dir', h')
  {
    var d := n / 100;
    BelowKeeps(Index(dir, d), n);
    BelowIncreasing(Index(dir, d), n);
    forall d': nat ensures Increasing(Index(dir', d')) {
      assert d' != d ==> Index(dir', d') == Index(dir, d');
    }
    forall d': nat, k: nat | k in Index(dir', d') ensures 1 <= k <= n && k / 100 == d' {
      assert d' != d ==> k in Index(dir, d');
    }
    forall k: nat ensures k in Index(dir', k / 100) <==> k in Index(dir, k / 100) || k == n {
      InsertedHolds(dir, n, dir', k);
    }
  }

  /** An untouched index stays right as long as what is settled is listed there if it is to be. */
  lemma IndexFrame(dir: Dir, dir': Dir, h: Process, h': Process)
    requires IndexInv(dir, h) && dir'.index == dir.index
    requires dir'.messages == dir.messages
             || (!NumberInIndex(h')
                 && exists m :: dir'.messages == dir.messages + [m] && (m.listed ==> NumberInIndex(h)))
    requires NumberInIndex(h') ==> NumberInIndex(h)
    ensures IndexInv(dir', h')
  {
    assert forall d: nat :: Index(dir', d) == Index(dir, d);
  }

  lemma SendIndex(dir: Dir, p: Process, a: Action)
    requires IsSender(p) && p.HoldsLock() && Allowed(p, a) && NumInv(dir, p) && IndexInv(dir, p)
    ensures var (dir', next) := SendStep(dir, p, a); IndexInv(dir', After(next))
  {
    hide NumInv;
    var (dir', next) := SendStep(dir, p, a);
    if p.SendLocked? && p.listed && a.Go? {
      NextNumber(dir, p);
      InsertKeepsIndex(dir, p.msgnum, dir', p, After(next));
    } else {
      assert dir'.messages != dir.messages ==> dir'.messages == dir.messages + [dir'.messages[|dir.messages|]];
      IndexFrame(dir, dir', p, After(next));
    }
  }

  lemma NextNumber(dir: Dir, p: Process)
    requires NumInv(dir, p) && p.SendLocked?
    ensures p.msgnum == |dir.messages| + 1
  {
  }

  lemma DigestRanges(dir: Dir, p: Process, a: Action)
    requires !IsSender(p) && p.HoldsLock() && Allowed(p, a) && DignumInv(dir, p)
    ensures var (dir', next) := DigestStep(dir, p, a); DignumInv(dir', After(next))
  {
    var (dir', next) := DigestStep(dir, p, a);
    if |dir'.digests| > |dir.digests| {
      AdjacentAppend(dir.digests, dir'.digests[|dir.digests|]);
    }
  }

  /** Settling a digest: its issue number is the next one, whether or not a death interferes. */
  lemma IssueAppend(dir: Dir, d: Digest, h: Process, dir': Dir, h': Process)
    requires IssueInv(dir, h) && dir'.digests == dir.digests + [d] && dir'.messages == dir.messages
    requires dir'.kills >= dir.kills && SettledIssue(dir', h') >= SettledIssue(dir, h)
    requires d.queued ==> d.issue == SettledIssue(dir, h) + 1 == SettledIssue(dir', h')
    requires !d.queued ==> dir'.kills > dir.kills
    ensures IssueInv(dir', h')
  {
  }

  lemma IssueFrame(dir: Dir, h: Process, dir': Dir, h': Process)
    requires IssueInv(dir, h) && dir'.digests == dir.digests
    requires dir'.messages == dir.messages || dir'.kills > 0
             || (|dir'.messages| == |dir.messages| + 1 && dir'.messages[..|dir.messages|] == dir.messages
                 && dir'.messages[|dir.messages|].accepted)
    requires (dir'.kills > dir.kills && SettledIssue(dir', h') >= SettledIssue(dir, h))
             || (dir'.kills == dir.kills && SettledIssue(dir', h') == SettledIssue(dir, h))
    ensures IssueInv(dir', h')
  {
  }

  lemma DigestIssues(dir: Dir, p: Process, a: Action)
    requires !IsSender(p) && p.HoldsLock() && Allowed(p, a) && DignumInv(dir, p) && IssueInv(dir, p)
    ensures var (dir', next) := DigestStep(dir, p, a); IssueInv(dir', After(next))
  {
    var (dir', next) := DigestStep(dir, p, a);
    if |dir'.digests| > |dir.digests| {
      IssueAppend(dir, dir'.digests[|dir.digests|], p, dir', After(next));
    } else {
      IssueFrame(dir, p, dir', After(next));
    }
  }

  lemma SendKeepsDigests(dir: Dir, p: Process, a: Action)
    requires IsSender(p) && p.HoldsLock() && Allowed(p, a) && DignumInv(dir, p) && IssueInv(dir, p)
    ensures var (dir', next) := SendStep(dir, p, a);
            && DignumInv(dir', After(next)) && IssueInv(dir', After(next))
            && dir'.digests == dir.digests && |dir'.messages| >= |dir.messages|
  {
    var (dir', next) := SendStep(dir, p, a);
    IssueFrame(dir, p, dir', After(next));
  }

  lemma SenderStep(dir: Dir, p: Process, a: Action, slack: nat)
    requires IsSender(p) && p.HoldsLock() && Allowed(p, a) && DirInv(dir, p, slack)
    ensures var (dir', next) := SendStep(dir, p, a);
            DirInv(dir', After(next), slack) && |dir'.messages| >= |dir.messages|
  {
    var (dir', next) := SendStep(dir, p, a);
    SendNum(dir, p, a);
    SendIndex(dir, p, a);
    SendKeepsDigests(dir, p, a);
  }

  lemma DigesterStep(dir: Dir, p: Process, a: Action, slack: nat)
    requires !IsSender(p) && p.HoldsLock() && Allowed(p, a) && DirInv(dir, p, slack) && ReadInv(dir, p, slack)
    ensures var (dir', next) := DigestStep(dir, p, a);
            DirInv(dir', After(next), slack) && ReadInv(dir', After(next), slack) && dir'.messages == dir.messages
  {
    hide SendStep, DigestStep, IssueInv, DignumInv, NumInv;
    var (dir', next) := DigestStep(dir, p, a);
    DigestReads(dir, p, a, slack);
    NumFrame(dir, dir', p, After(next));
    IndexFrame(dir, dir', p, After(next));
    DigestRanges(dir, p, a);
    DigestIssues(dir, p, a);
  }

  /** What a digest leaves alone, and what it goes on knowing. */
  lemma DigestReads(dir: Dir, p: Process, a: Action, slack: nat)
    requires !IsSender(p) && p.HoldsLock() && Allowed(p, a) && ReadInv(dir, p, slack)
    requires Covered(dir.digests).max <= |dir.messages| + slack
    ensures var (dir', next) := DigestStep(dir, p, a);
            && dir'.messages == dir.messages && dir'.num == dir.num && dir'.index == dir.index
            && !IsSender(After(next)) && ReadInv(dir', After(next), slack)
            && Covered(dir'.digests).max <= |dir'.messages| + slack
  {
  }

  lemma NumFrame(dir: Dir, dir': Dir, h: Process, h': Process)
    requires NumInv(dir, h) && dir'.messages == dir.messages && dir'.num == dir.num && !IsSender(h) && !IsSender(h')
    ensures NumInv(dir', h')
  {
  }

  lemma AcquireStep(dir: Dir, p: Process, slack: nat)
    requires p.WantsLock() && DirInv(dir, Done, slack) && ReadInv(dir, p, slack)
    ensures var (dir', next) := Step(dir, p, Go);
            && dir' == dir && next.Some? && next.value.HoldsLock()
            && DirInv(dir, next.value, slack) && ReadInv(dir, next.value, slack)
  {
    var next := Step(dir, p, Go).1.value;
    IndexFrame(dir, dir, Done, next);
    IssueFrame(dir, Done, dir, next);
  }

  /** A step of the process that holds the lock, or that takes it while nobody does. */
  lemma HolderStep(dir: Dir, p: Process, a: Action, slack: nat)
    requires Allowed(p, a)
    requires if p.HoldsLock() then DirInv(dir, p, slack) else a.Go? && p.WantsLock() && DirInv(dir, Done, slack)
    requires ReadInv(dir, p, slack)
    ensures var (dir', next) := Step(dir, p, a);
            && DirInv(dir', After(next), slack) && ReadInv(dir', After(next), slack)
            && |dir'.messages| >= |dir.messages|
            && (next.Some? ==> next.value.HoldsLock())
  {
    hide NumInv, IndexInv, DignumInv, IssueInv;
    if !p.HoldsLock() {
      AcquireStep(dir, p, slack);
    } else if IsSender(p) {
      SenderStep(dir, p, a, slack);
    } else {
      DigesterStep(dir, p, a, slack);
    }
  }

  /** A step without the lock changes no file. */
  lemma UnlockedStep(dir: Dir, p: Process, a: Action)
    requires Allowed(p, a) && !p.HoldsLock() && !(a.Go? && p.WantsLock())
    ensures var (dir', next) := Step(dir, p, a);
            dir' == dir && (next.Some? ==> !next.value.HoldsLock() && next.value == DigRead(dir.num))
  {
  }

  lemma NumAheadOf(dir: Dir, h: Process)
    requires NumInv(dir, h)
    ensures dir.num.max == |dir.messages| + if h.SendWritten? || h.SendFailed? then 1 else 0
  {
  }

  lemma ReadInvMonotone(dir: Dir, dir': Dir, p: Process, slack: nat)
    requires ReadInv(dir, p, slack) && |dir'.messages| >= |dir.messages|
    ensures ReadInv(dir', p, slack)
  {
  }

  lemma NextHoldsLock(dir: Dir, p: Process, a: Action)
    requires Allowed(p, a) && (p.HoldsLock() || (a.Go? && p.WantsLock()))
    ensures var next := Step(dir, p, a).1; next.Some? ==> next.value.HoldsLock()
  {
  }

  lemma LockPasses(s: State, e: Event)
    requires LockInv(s) && Enabled(s, e) && e.Act?
    requires s.procs[e.pid].HoldsLock() || (e.action.Go? && s.procs[e.pid].WantsLock())
    ensures Holder(s) == if s.procs[e.pid].HoldsLock() then s.procs[e.pid] else Done
    ensures LockInv(Apply(s, e)) && Holder(Apply(s, e)) == After(Step(s.dir, s.procs[e.pid], e.action).1)
  {
    NextHoldsLock(s.dir, s.procs[e.pid], e.action);
  }

  lemma HeldStepKeepsInv(s: State, e: Event, slack: nat)
    requires Inv(s, slack) && Enabled(s, e) && e.Act?
    requires s.procs[e.pid].HoldsLock() || (e.action.Go? && s.procs[e.pid].WantsLock())
    ensures Inv(Apply(s, e), slack)
  {
    hide DirInv, LockInv, Step;
    var t := Apply(s, e);
    var p, a := s.procs[e.pid], e.action;
    LockPasses(s, e);
    HolderStep(s.dir, p, a, slack);
    forall pid | pid in t.procs && pid != e.pid ensures ReadInv(t.dir, t.procs[pid], slack) {
      ReadInvMonotone(s.dir, t.dir, s.procs[pid], slack);
    }
  }

  lemma StepKeepsInv(s: State, e: Event, slack: nat)
    requires Inv(s, slack) && Enabled(s, e) && (DirtyRead(s, e) ==> slack >= 1)
    ensures Inv(Apply(s, e), slack)
  {
    var t := Apply(s, e);
    if e.Act? && (s.procs[e.pid].HoldsLock() || (e.action.Go? && s.procs[e.pid].WantsLock())) {
      HeldStepKeepsInv(s, e, slack);
    } else {
      if e.Act? {
        UnlockedStep(s.dir, s.procs[e.pid], e.action);
        NumAheadOf(s.dir, Holder(s));
      }
      assert t.dir == s.dir && LockInv(t) && Holder(t) == Holder(s);
    }
  }

  lemma {:induction false} RunKeepsInv(s: State, events: seq<Event>, slack: nat)
    requires Inv(s, slack) && IsRun(s, events) && (slack == 0 ==> NoDirtyReads(s, events))
    ensures Inv(Run(s, events), slack)
    decreases |events|
  {
    if events != [] {
      StepKeepsInv(s, events[0], slack);
      RunKeepsInv(Apply(s, events[0]), events[1..], slack);
    }
  }

  lemma InitialInv(slack: nat)
    ensures Inv(INITIAL, slack)
  {
    assert Adjacent([]);
  }

  // ---- what it means ----

  predicate Contains(d: Digest, k: nat) {
    d.lo <= k <= d.hi
  }

  ghost predicate Digested(ds: seq<Digest>, k: nat) {
    exists i :: 0 <= i < |ds| && Contains(ds[i], k)
  }

  ghost predicate DigestedAndQueued(ds: seq<Digest>, k: nat) {
    exists i :: 0 <= i < |ds| && ds[i].queued && Contains(ds[i], k)
  }

  /** Non-empty disjoint ranges that make up 1..n. */
  ghost predicate Partition(ds: seq<Digest>, n: nat) {
    && (forall i :: 0 <= i < |ds| ==> 1 <= ds[i].lo <= ds[i].hi <= n)
    && (forall i, j :: 0 <= i < j < |ds| ==> ds[i].hi < ds[j].lo)
    && (forall k: nat :: 1 <= k <= n ==> Digested(ds, k))
  }

  lemma {:induction false} RangesInOrder(ds: seq<Digest>, i: nat, j: nat)
    requires Adjacent(ds) && i < j <= |ds|
    ensures ds[i].hi <= Covered(ds[..j]).max
    decreases j
  {
    assert ds[..j][..j - 1] == ds[..j - 1];
    if i < j - 1 {
      RangesInOrder(ds, i, j - 1);
    }
  }

  lemma {:induction false} RangesCover(ds: seq<Digest>, j: nat, k: nat)
    requires Adjacent(ds) && j <= |ds| && 1 <= k <= Covered(ds[..j]).max
    ensures Digested(ds, k)
    decreases j
  {
    if ds[j - 1].lo <= k {
      assert Contains(ds[j - 1], k);
    } else {
      RangesCover(ds, j - 1, k);
    }
  }

  lemma AdjacentIsPartition(ds: seq<Digest>)
    requires Adjacent(ds)
    ensures Partition(ds, Covered(ds).max)
  {
    var n := Covered(ds).max;
    assert ds[..|ds|] == ds;
    forall i | 0 <= i < |ds| ensures 1 <= ds[i].lo <= ds[i].hi <= n {
      RangesInOrder(ds, i, |ds|);
    }
    forall i, j | 0 <= i < j < |ds| ensures ds[i].hi < ds[j].lo {
      RangesInOrder(ds, i, j);
    }
    forall k: nat | 1 <= k <= n ensures Digested(ds, k) {
      RangesCover(ds, |ds|, k);
    }
  }

  /** Leaving out the lost ranges leaves gaps. */
  lemma QueuedPart(ds: seq<Digest>, n: nat)
    requires Partition(ds, n)
    ensures (forall k: nat :: 1 <= k <= n ==> DigestedAndQueued(ds, k))
            <==> (forall i :: 0 <= i < |ds| ==> ds[i].queued)
  {
    if i :| 0 <= i < |ds| && !ds[i].queued {
      var k := ds[i].lo;
      forall j | 0 <= j < |ds| && ds[j].queued ensures !Contains(ds[j], k) {
        assert i < j ==> ds[i].hi < ds[j].lo;
        assert j < i ==> ds[j].hi < ds[i].lo;
      }
      assert !DigestedAndQueued(ds, k);
    } else {
      forall k: nat | 1 <= k <= n ensures DigestedAndQueued(ds, k) {
        assert Digested(ds, k);
      }
    }
  }

  ghost predicate IssuesIncrease(ds: seq<Digest>) {
    forall i, j :: 0 <= i < j < |ds| && ds[i].queued && ds[j].queued ==> ds[i].issue < ds[j].issue
  }

  /** In every reachable state with the lock free, the settled digest ranges partition 1..dignum and
      queued issues are numbered in order. The queued ranges alone partition 1..dignum exactly when
      no range was lost to a death inside a commit; without such deaths issues are 1, 2, 3, ... */
  lemma DigestsPartition(events: seq<Event>)
    requires IsRun(INITIAL, events) && Run(INITIAL, events).lock.None?
    ensures var dir := Run(INITIAL, events).dir;
            && Partition(dir.digests, dir.dignum.max) && IssuesIncrease(dir.digests)
            && ((forall k: nat :: 1 <= k <= dir.dignum.max ==> DigestedAndQueued(dir.digests, k))
                <==> (forall i :: 0 <= i < |dir.digests| ==> dir.digests[i].queued))
            && (dir.kills == 0 ==> dir.digissue == |dir.digests| && AllQueued(dir))
  {
    InitialInv(1);
    RunKeepsInv(INITIAL, events, 1);
    var dir := Run(INITIAL, events).dir;
    AdjacentIsPartition(dir.digests);
    QueuedPart(dir.digests, dir.dignum.max);
  }

  /** `num` runs ahead of what is settled, by one, exactly while a sender has written it and its number is
      not settled. */
  lemma NumAhead(events: seq<Event>)
    requires IsRun(INITIAL, events)
    ensures var s := Run(INITIAL, events);
            s.dir.num.max == |s.dir.messages| + if Holder(s).SendWritten? || Holder(s).SendFailed? then 1 else 0
  {
    InitialInv(1);
    RunKeepsInv(INITIAL, events, 1);
    NumAheadOf(Run(INITIAL, events).dir, Holder(Run(INITIAL, events)));
  }

  predicate HasPlan(p: Process) {
    p.DigRange? || p.DigIssued? || p.DigCommitted? || p.DigFailed? || p.DigIssueBack?
  }

  predicate Settled(dir: Dir, k: nat) {
    exists i :: 0 <= i < |dir.messages| && dir.messages[i].number == k
  }

  /** The exact condition for a sound digest, in every reachable state and at every point of a digest from
      the choice of its range on: the range covers settled numbers only if and only if it does not go beyond
      `num`, which a second read under the lock would find out. It never goes beyond by more than one. */
  lemma RangeIsSettled(events: seq<Event>, pid: nat)
    requires IsRun(INITIAL, events)
    requires var s := Run(INITIAL, events); pid in s.procs && HasPlan(s.procs[pid])
    ensures var s := Run(INITIAL, events); var plan := s.procs[pid].plan;
            && plan.prev.max < plan.max <= s.dir.num.max + 1
            && ((forall k: nat :: plan.prev.max < k <= plan.max ==> Settled(s.dir, k)) <==> plan.max <= s.dir.num.max)
  {
    InitialInv(1);
    RunKeepsInv(INITIAL, events, 1);
    PlanIsSettled(Run(INITIAL, events), pid);
  }

  lemma PlanIsSettled(s: State, pid: nat)
    requires Inv(s, 1) && pid in s.procs && HasPlan(s.procs[pid])
    ensures var plan := s.procs[pid].plan;
            && plan.prev.max < plan.max <= s.dir.num.max + 1
            && ((forall k: nat :: plan.prev.max < k <= plan.max ==> Settled(s.dir, k)) <==> plan.max <= s.dir.num.max)
  {
    var plan := s.procs[pid].plan;
    assert Holder(s) == s.procs[pid] && s.dir.num.max == |s.dir.messages| && ReadInv(s.dir, s.procs[pid], 1);
    forall k: nat | 1 <= k ensures Settled(s.dir, k) <==> k <= |s.dir.messages| {
      assert k <= |s.dir.messages| ==> s.dir.messages[k - 1].number == k;
    }
    assert Settled(s.dir, plan.max) <==> plan.max <= |s.dir.messages|;
  }

  /** A digest announces numbers beyond the last settled one by one at most, and by none in a run without
      dirty reads. With the lock free, it has announced none beyond exactly when `dignum` is not above `num`. */
  lemma DignumBound(events: seq<Event>)
    requires IsRun(INITIAL, events)
    ensures var s := Run(INITIAL, events); var dir := s.dir;
            && Covered(dir.digests).max <= |dir.messages| + 1
            && (NoDirtyReads(INITIAL, events) ==> Covered(dir.digests).max <= |dir.messages|)
            && (s.lock.None? ==> (Covered(dir.digests).max <= |dir.messages| <==> dir.dignum.max <= dir.num.max))
  {
    InitialInv(1);
    RunKeepsInv(INITIAL, events, 1);
    if NoDirtyReads(INITIAL, events) {
      InitialInv(0);
      RunKeepsInv(INITIAL, events, 0);
    }
  }

  /** The size that goes with a number is that of the messages up to it. */
  predicate SizeFits(dir: Dir, c: Counter) {
    c.max <= |dir.messages| && c.cum == SizeSum(dir.messages[..c.max])
  }

  /** What a digest has read, if it has. */
  function ReadOf(p: Process): Option<Counter> {
    match p
    case DigRead(read) => Some(read)
    case DigLocked(read) => Some(read)
    case DigRange(plan) => Some(Counter(plan.max, plan.cumsizen))
    case DigIssued(plan) => Some(Counter(plan.max, plan.cumsizen))
    case DigCommitted(plan) => Some(Counter(plan.max, plan.cumsizen))
    case DigFailed(plan) => Some(Counter(plan.max, plan.cumsizen))
    case DigIssueBack(plan) => Some(Counter(plan.max, plan.cumsizen))
    case _ => None
  }

  ghost predicate ProcFits(dir: Dir, p: Process) {
    ReadOf(p).Some? ==> SizeFits(dir, ReadOf(p).value)
  }

  ghost predicate DigestsFit(dir: Dir) {
    forall i :: 0 <= i < |dir.digests| ==> SizeFits(dir, Counter(dir.digests[i].hi, dir.digests[i].cum))
  }

  ghost predicate SizeInv(s: State) {
    DigestsFit(s.dir) && forall pid :: pid in s.procs ==> ProcFits(s.dir, s.procs[pid])
  }

  lemma FitsLater(dir: Dir, dir': Dir, c: Counter)
    requires SizeFits(dir, c) && dir.messages <= dir'.messages
    ensures SizeFits(dir', c)
  {
    assert dir'.messages[..c.max] == dir.messages[..c.max];
  }

  lemma MessagesGrow(dir: Dir, p: Process, a: Action)
    ensures dir.messages <= Step(dir, p, a).0.messages
  {
  }

  lemma NumFits(dir: Dir, h: Process)
    requires NumInv(dir, h) && !h.SendWritten? && !h.SendFailed?
    ensures SizeFits(dir, dir.num)
  {
    assert dir.messages[..|dir.messages|] == dir.messages;
  }

  /** A step settles what the process has read, or lets it know the same as before. */
  lemma StepFits(dir: Dir, p: Process, a: Action)
    requires ProcFits(dir, p) && (p.DigStart? && a.Go? ==> SizeFits(dir, dir.num))
    ensures var (dir', next) := Step(dir, p, a);
            && ProcFits(dir, After(next))
            && (dir'.digests == dir.digests
                || exists d :: dir'.digests == dir.digests + [d] && SizeFits(dir, Counter(d.hi, d.cum)))
  {
    hide SizeFits;
    if IsSender(p) {
      hide DigestStep;
    } else {
      hide SendStep;
      var dir' := DigestStep(dir, p, a).0;
      if dir'.digests != dir.digests {
        assert dir'.digests == dir.digests + [dir'.digests[|dir.digests|]];
      }
    }
  }

  lemma StepKeepsSizes(s: State, e: Event)
    requires Inv(s, 0) && SizeInv(s) && Enabled(s, e) && !DirtyRead(s, e)
    ensures SizeInv(Apply(s, e))
  {
    hide Step, DirInv, ReadInv, SizeFits, LockInv;
    var t := Apply(s, e);
    if e.Act? {
      var p := s.procs[e.pid];
      MessagesGrow(s.dir, p, e.action);
      if p.DigStart? && e.action.Go? {
        NumFitsNow(s);
      }
      StepFits(s.dir, p, e.action);
      forall i | 0 <= i < |t.dir.digests|
        ensures SizeFits(t.dir, Counter(t.dir.digests[i].hi, t.dir.digests[i].cum))
      {
        FitsLater(s.dir, t.dir, Counter(t.dir.digests[i].hi, t.dir.digests[i].cum));
      }
      forall pid | pid in t.procs ensures ProcFits(t.dir, t.procs[pid]) {
        if ReadOf(t.procs[pid]).Some? {
          assert ProcFits(s.dir, t.procs[pid]);
          FitsLater(s.dir, t.dir, ReadOf(t.procs[pid]).value);
        }
      }
    }
  }

  lemma NumFitsNow(s: State)
    requires Inv(s, 0) && !Holder(s).SendWritten? && !Holder(s).SendFailed?
    ensures SizeFits(s.dir, s.dir.num)
  {
    hide NumInv, IndexInv, DignumInv, IssueInv, SizeFits, ReadInv;
    NumFits(s.dir, Holder(s));
  }

  lemma {:induction false} RunKeepsSizes(s: State, events: seq<Event>)
    requires Inv(s, 0) && SizeInv(s) && IsRun(s, events) && NoDirtyReads(s, events)
    ensures SizeInv(Run(s, events))
    decreases |events|
  {
    hide Inv, SizeInv, Apply;
    if events != [] {
      StepKeepsInv(s, events[0], 0);
      StepKeepsSizes(s, events[0]);
      RunKeepsSizes(Apply(s, events[0]), events[1..]);
    }
  }

  /** In runs without dirty reads every settled digest, and with the lock free `dignum`, carries exactly the
      size of the messages up to its last number. */
  lemma DigestSizes(events: seq<Event>)
    requires IsRun(INITIAL, events) && NoDirtyReads(INITIAL, events)
    ensures var s := Run(INITIAL, events);
            && (forall i :: 0 <= i < |s.dir.digests| ==>
                  SizeFits(s.dir, Counter(s.dir.digests[i].hi, s.dir.digests[i].cum)))
            && (s.lock.None? ==> SizeFits(s.dir, s.dir.dignum))
  {
    hide SizeFits;
    InitialInv(0);
    RunKeepsInv(INITIAL, events, 0);
    RunKeepsSizes(INITIAL, events);
    var s := Run(INITIAL, events);
    if s.lock.None? {
      DignumIsLast(s);
      NothingFits(s.dir);
    }
  }

  lemma DignumIsLast(s: State)
    requires Inv(s, 0) && s.lock.None?
    ensures s.dir.dignum == Covered(s.dir.digests)
  {
  }

  lemma NothingFits(dir: Dir)
    ensures SizeFits(dir, Counter(0, 0))
  {
  }

  function AcceptedRecords(ms: seq<Message>): nat {
    if ms == [] then 0
    else AcceptedRecords(ms[..|ms| - 1]) + if ms[|ms| - 1].accepted then Records(ms[|ms| - 1].size) else 0
  }

  function LostRecords(ms: seq<Message>): nat {
    if ms == [] then 0
    else LostRecords(ms[..|ms| - 1]) + if ms[|ms| - 1].accepted then 0 else Records(ms[|ms| - 1].size)
  }

  lemma {:induction false} SizesSplit(ms: seq<Message>)
    ensures SizeSum(ms) == AcceptedRecords(ms) + LostRecords(ms)
    ensures (forall i :: 0 <= i < |ms| ==> ms[i].accepted) ==> LostRecords(ms) == 0
  {
    if ms != [] {
      SizesSplit(ms[..|ms| - 1]);
    }
  }

  function Bytes(ms: seq<Message>): nat {
    if ms == [] then 0 else Bytes(ms[..|ms| - 1]) + ms[|ms| - 1].size
  }

  /** `cum` records are the bytes of the messages, up to half a record for each of them. */
  predicate Approximates(ms: seq<Message>, cum: nat) {
    Bytes(ms) <= 256 * cum + 128 * |ms| && 256 * cum <= Bytes(ms) + 128 * |ms|
  }

  lemma {:induction false} SizesRound(ms: seq<Message>)
    ensures Approximates(ms, SizeSum(ms))
  {
    hide Records;
    if ms != [] {
      SizesRound(ms[..|ms| - 1]);
      RecordsRound(ms[|ms| - 1].size);
    }
  }

  /** No two messages share a number; with the lock free `num` counts the settled messages, and its size is
      that of the accepted ones and of those lost to a death, the latter none in a run without deaths. Times
      256 it is their bytes, up to 128 for each message. */
  lemma NumbersAreUnique(events: seq<Event>)
    requires IsRun(INITIAL, events)
    ensures var dir := Run(INITIAL, events).dir;
            forall i, j :: 0 <= i < j < |dir.messages| ==> dir.messages[i].number < dir.messages[j].number
    ensures var s := Run(INITIAL, events); var ms := s.dir.messages;
            s.lock.None? ==>
              && s.dir.num == Counter(|ms|, AcceptedRecords(ms) + LostRecords(ms))
              && Approximates(ms, s.dir.num.cum)
              && (s.dir.kills == 0 ==>
                    s.dir.num.cum == AcceptedRecords(ms) && forall i :: 0 <= i < |ms| ==> ms[i].accepted)
  {
    hide Records;
    InitialInv(1);
    RunKeepsInv(INITIAL, events, 1);
    SizesSplit(Run(INITIAL, events).dir.messages);
    SizesRound(Run(INITIAL, events).dir.messages);
  }

  /** The event is the insertion of an index entry for `n`. */
  predicate InsertsEntry(s: State, e: Event, n: nat) {
    e.Act? && e.action.Go? && e.pid in s.procs && var p := s.procs[e.pid]; p.SendLocked? && p.msgnum == n && p.listed
  }

  /** Some attempt to send number `n` inserted an index entry, whatever became of it. */
  ghost predicate Attempted(s: State, events: seq<Event>, n: nat)
    requires IsRun(s, events)
    decreases |events|
  {
    events != [] && (InsertsEntry(s, events[0], n) || Attempted(Apply(s, events[0]), events[1..], n))
  }

  lemma StepIndexes(s: State, e: Event, n: nat)
    requires Inv(s, 1) && Enabled(s, e)
    ensures n in Index(Apply(s, e).dir, n / 100) <==> n in Index(s.dir, n / 100) || InsertsEntry(s, e, n)
  {
    hide DignumInv, IssueInv, ReadInv, Increasing;
    if e.Act? && s.procs[e.pid].SendLocked? && e.action.Go? && s.procs[e.pid].listed {
      var p := s.procs[e.pid];
      assert Holder(s) == p;
      InsertedHolds(s.dir, p.msgnum, Apply(s, e).dir, n);
    } else if e.Act? {
      StepKeepsIndex(s.dir, s.procs[e.pid], e.action);
    }
  }

  lemma StepKeepsIndex(dir: Dir, p: Process, a: Action)
    requires !(p.SendLocked? && a.Go? && p.listed)
    ensures Step(dir, p, a).0.index == dir.index
  {
  }

  lemma {:induction false} RunIndexes(s: State, events: seq<Event>, n: nat)
    requires Inv(s, 1) && IsRun(s, events)
    ensures n in Index(Run(s, events).dir, n / 100) <==> n in Index(s.dir, n / 100) || Attempted(s, events, n)
    decreases |events|
  {
    hide Inv, Index;
    if events != [] {
      StepIndexes(s, events[0], n);
      StepKeepsInv(s, events[0], 1);
      RunIndexes(Apply(s, events[0]), events[1..], n);
    }
  }

  /** In every reachable state each index file is increasing and holds numbers of its hundred, none above
      `num` plus one, and a number is listed exactly when some attempt to send it inserted an entry; so is
      every settled number whose own attempt did. */
  lemma IndexIsExact(events: seq<Event>, n: nat)
    requires IsRun(INITIAL, events)
    ensures var dir := Run(INITIAL, events).dir;
            && (forall d: nat :: Increasing(Index(dir, d)))
            && (forall d: nat, k: nat :: k in Index(dir, d) ==> 1 <= k <= dir.num.max + 1 && k / 100 == d)
            && (n in Index(dir, n / 100) <==> Attempted(INITIAL, events, n))
            && (1 <= n <= |dir.messages| && dir.messages[n - 1].listed ==> n in Index(dir, n / 100))
  {
    InitialInv(1);
    RunKeepsInv(INITIAL, events, 1);
    RunIndexes(INITIAL, events, n);
    NumAhead(events);
  }

  lemma {:induction false} Extend(s: State, events: seq<Event>, e: Event)
    requires IsRun(s, events) && Enabled(Run(s, events), e)
    ensures IsRun(s, events + [e]) && Run(s, events + [e]) == Apply(Run(s, events), e)
    decreases |events|
  {
    var es := events + [e];
    if events != [] {
      assert es[0] == events[0] && es[1..] == events[1..] + [e];
      Extend(Apply(s, events[0]), events[1..], e);
    } else {
      assert es[1..] == [];
    }
  }

  /** A message of header lines alone is accepted without an index entry; so is every message of a list
      that is not indexed. */
  lemma HeaderOnlyRun() returns (events: seq<Event>)
    ensures IsRun(INITIAL, events)
    ensures var s := Run(INITIAL, events);
            && s.lock.None? && s.dir.kills == 0 && s.dir.num.max == 1
            && s.dir.messages == [Message(1, 0, true, false)] && Index(s.dir, 0) == []
  {
    hide Run, IsRun, Follows;
    var dir := INITIAL.dir;
    var d1 := dir.(num := Counter(1, 0));
    var d2 := d1.(messages := [Message(1, 0, true, false)]);
    var states := [INITIAL,
                   State(dir, None, map[1 := SendStart(0, false)]),
                   State(dir, Some(1), map[1 := SendLocked(1, 0, 0, false)]),
                   State(dir, Some(1), map[1 := SendCopied(1, 0, 0, false)]),
                   State(d1, Some(1), map[1 := SendWritten(1, 0, 0, false)]),
                   State(d2, Some(1), map[1 := Done]),
                   State(d2, None, map[])];
    events := [Start(1, SendStart(0, false)), Act(1, Go), Act(1, Go), Act(1, Go), Act(1, QueueClose(true)), Act(1, Go)];
    UnlistedBegins(dir);
    UnlistedWrites(dir);
    UnlistedAccepted(d1);
    FollowStates(states, events, 6);
    assert events[..6] == events;
  }

  predicate Follows(s: State, e: Event, t: State) {
    Enabled(s, e) && Apply(s, e) == t
  }

  lemma UnlistedBegins(dir: Dir)
    requires dir.num == Counter(0, 0)
    ensures Follows(State(dir, None, map[]), Start(1, SendStart(0, false)),
                    State(dir, None, map[1 := SendStart(0, false)]))
    ensures Follows(State(dir, None, map[1 := SendStart(0, false)]), Act(1, Go),
                  State(dir, Some(1), map[1 := SendLocked(1, 0, 0, false)]))
  {
    hide DigestStep;
  }

  lemma UnlistedWrites(dir: Dir)
    ensures Follows(State(dir, Some(1), map[1 := SendLocked(1, 0, 0, false)]), Act(1, Go),
                  State(dir, Some(1), map[1 := SendCopied(1, 0, 0, false)]))
    ensures Follows(State(dir, Some(1), map[1 := SendCopied(1, 0, 0, false)]), Act(1, Go),
                  State(dir.(num := Counter(1, 0)), Some(1), map[1 := SendWritten(1, 0, 0, false)]))
  {
    hide DigestStep;
    assert Records(0) == 0;
  }

  lemma UnlistedAccepted(dir: Dir)
    requires dir.messages == []
    ensures var d2 := dir.(messages := [Message(1, 0, true, false)]);
            && Follows(State(dir, Some(1), map[1 := SendWritten(1, 0, 0, false)]), Act(1, QueueClose(true)),
                     State(d2, Some(1), map[1 := Done]))
            && Follows(State(d2, Some(1), map[1 := Done]), Act(1, Go), State(d2, None, map[]))
  {
    assert map[1 := Done] - {1} == map[];
  }

  /** A run given by its states. */
  lemma {:induction false} FollowStates(states: seq<State>, events: seq<Event>, n: nat)
    requires n <= |events| && |states| == |events| + 1 && states[0] == INITIAL
    requires forall i :: 0 <= i < |events| ==> Follows(states[i], events[i], states[i + 1])
    ensures IsRun(INITIAL, events[..n]) && Run(INITIAL, events[..n]) == states[n]
  {
    if n > 0 {
      FollowStates(states, events, n - 1);
      assert Follows(states[n - 1], events[n - 1], states[n]);
      Extend(INITIAL, events[..n - 1], events[n - 1]);
      assert events[..n - 1] + [events[n - 1]] == events[..n];
    }
  }

  // ---- a dirty read, played out ----

  // A directory whose list has never accepted a message.
  function Fresh(num: nat, dignum: nat, digissue: nat, index: map<nat, seq<nat>>, digests: seq<Digest>): Dir {
    Dir(Counter(num, 0), Counter(dignum, 0), digissue, index, [], digests, 0)
  }

  const STALE: map<nat, seq<nat>> := map[0 := [1]]

  const READ: Process := DigRead(Counter(1, 0))

  const PLAN: Plan := Plan(1, 0, Counter(0, 0), 1)

  /** Process 1 sends and process 2 digests: 2 reads `num` while 1 waits for the queue, which refuses. */
  function Scene(i: nat): (State, Event) {
    var empty, rolled := Fresh(0, 0, 0, map[], []), Fresh(0, 0, 0, STALE, []);
    var written := Fresh(1, 0, 0, STALE, []);
    if i == 0 then (INITIAL, Start(1, SendStart(0, true)))
    else if i == 1 then (State(empty, None, map[1 := SendStart(0, true)]), Act(1, Go))
    else if i == 2 then (State(empty, Some(1), map[1 := SendLocked(1, 0, 0, true)]), Act(1, Go))
    else if i == 3 then (State(rolled, Some(1), map[1 := SendCopied(1, 0, 0, true)]), Act(1, Go))
    else if i == 4 then (State(written, Some(1), map[1 := SendWritten(1, 0, 0, true)]), Start(2, DigStart))
    else if i == 5 then (State(written, Some(1), map[1 := SendWritten(1, 0, 0, true), 2 := DigStart]), Act(2, Go))
    else if i == 6 then
      (State(written, Some(1), map[1 := SendWritten(1, 0, 0, true), 2 := READ]), Act(1, QueueClose(false)))
    else if i == 7 then (State(written, Some(1), map[1 := SendFailed(1, 0, 0, true), 2 := READ]), Act(1, Go))
    else if i == 8 then (State(rolled, Some(1), map[1 := Done, 2 := READ]), Act(1, Go))
    else if i == 9 then (State(rolled, None, map[2 := READ]), Act(2, Go))
    else if i == 10 then (State(rolled, Some(2), map[2 := DigLocked(Counter(1, 0))]), Act(2, Go))
    else if i == 11 then (State(rolled, Some(2), map[2 := DigRange(PLAN)]), Act(2, Go))
    else if i == 12 then (State(Fresh(0, 0, 1, STALE, []), Some(2), map[2 := DigIssued(PLAN)]), Act(2, Go))
    else if i == 13 then
      (State(Fresh(0, 1, 1, STALE, []), Some(2), map[2 := DigCommitted(PLAN)]), Act(2, QueueClose(true)))
    else if i == 14 then
      (State(Fresh(0, 1, 1, STALE, [Digest(1, 1, 1, 0, true)]), Some(2), map[2 := Done]), Act(2, Go))
    else (State(Fresh(0, 1, 1, STALE, [Digest(1, 1, 1, 0, true)]), None, map[]), Act(2, Go))
  }

  ghost predicate Plays(i: nat) {
    Enabled(Scene(i).0, Scene(i).1) && Apply(Scene(i).0, Scene(i).1) == Scene(i + 1).0
  }

  lemma IndexScene()
    ensures Plays(2)
  {
    var none: seq<nat> := [];
    assert Index(Scene(2).0.dir, 0) == none && Below(none, 1) + [1] == [1];
    assert Scene(2).0.dir.index[0 := [1]] == STALE;
  }

  lemma WriteStep()
    ensures SendStep(Fresh(0, 0, 0, STALE, []), SendCopied(1, 0, 0, true), Go)
            == (Fresh(1, 0, 0, STALE, []), Some(SendWritten(1, 0, 0, true)))
  {
    assert Records(0) == 0;
  }

  lemma WriteScene()
    ensures Plays(3)
  {
    hide SendStep, DigestStep;
    WriteStep();
    assert map[1 := SendCopied(1, 0, 0, true)][1 := SendWritten(1, 0, 0, true)] == map[1 := SendWritten(1, 0, 0, true)];
  }

  lemma SenderScene(i: nat)
    requires i < 5 && i != 2 && i != 3
    ensures Plays(i)
  {
  }

  lemma ReadScene()
    ensures Plays(5)
  {
    hide SendStep;
  }

  lemma RefuseScene()
    ensures Plays(6)
  {
    hide DigestStep;
  }

  lemma RollbackScene()
    ensures Plays(7)
  {
    hide DigestStep;
  }

  lemma SenderLeavesScene()
    ensures Plays(8)
  {
    hide SendStep;
    assert map[1 := Done, 2 := READ] - {1} == map[2 := READ];
  }

  lemma LockScene()
    ensures Plays(9)
  {
    hide SendStep;
  }

  lemma RangeScene()
    ensures Plays(10)
  {
    hide SendStep;
  }

  lemma IssueScene()
    ensures Plays(11)
  {
    hide SendStep;
  }

  lemma CommitScene()
    ensures Plays(12)
  {
    hide SendStep;
  }

  lemma AnnounceScene()
    ensures Plays(13)
  {
    hide SendStep;
  }

  lemma DigestLeavesScene()
    ensures Plays(14)
  {
    hide SendStep;
    assert map[2 := Done] - {2} == map[];
  }

  lemma EveryScene(i: nat)
    requires i < 15
    ensures Plays(i)
  {
    hide Plays;
    match i
    case 2 => IndexScene();
    case 3 => WriteScene();
    case 5 => ReadScene();
    case 6 => RefuseScene();
    case 7 => RollbackScene();
    case 8 => SenderLeavesScene();
    case 9 => LockScene();
    case 10 => RangeScene();
    case 11 => IssueScene();
    case 12 => CommitScene();
    case 13 => AnnounceScene();
    case 14 => DigestLeavesScene();
    case _ => SenderScene(i);
  }

  lemma RunNothing(s: State)
    ensures IsRun(s, []) && Run(s, []) == s
  {
  }

  lemma {:induction false} PlayScenes(i: nat) returns (events: seq<Event>)
    requires i <= 15
    ensures IsRun(INITIAL, events) && Run(INITIAL, events) == Scene(i).0
  {
    hide Run, IsRun, Apply, Enabled;
    if i == 0 {
      events := [];
      RunNothing(INITIAL);
    } else {
      events := PlayScenes(i - 1);
      EveryScene(i - 1);
      Extend(INITIAL, events, Scene(i - 1).1);
      events := events + [Scene(i - 1).1];
    }
  }

  /** Dirty reads do happen: without any death, a digest can announce message 1 of a list that never
      accepted a message, because the sender rolled back what the digest had read. */
  lemma DirtyReadRun() returns (events: seq<Event>)
    ensures IsRun(INITIAL, events)
    ensures var s := Run(INITIAL, events);
            && s.lock.None? && s.dir.kills == 0 && s.dir.messages == [] && s.dir.num.max == 0
            && s.dir.digests == [Digest(1, 1, 1, 0, true)] && s.dir.dignum.max == 1
  {
    events := PlayScenes(15);
  }
}
