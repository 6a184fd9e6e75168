/** The moderation queue as a state machine: any number of ezmlm-store, ezmlm-moderate and ezmlm-clean
    processes on the directories mod/pending, mod/accepted and mod/rejected, interleaved file access by
    file access. All three take the file mod/lock. Any process may die at any point, any call may
    fail, and death closes the lock file and so frees the lock. */
module Moderation {
  import opened Options

  /** Files are called by the second and the process that made them. */
  datatype Name = Name(time: nat, pid: nat)

  datatype Where = InPending | InAccepted | InRejected | Nowhere

  // What has happened to a name. A fault is an effect whose file was not unlinked afterwards: the unlink
  // failed, the process died first, or the posting command failed although it had posted.
  datatype Entry =
    | Stored(name: Name)
    | Posted(name: Name)
    | Returned(name: Name)
    | TimedOut(name: Name)
    | Erased(name: Name)
    | Fault(name: Name)
    | Told(name: Name, found: Where)

  datatype Mods = Mods(
    clock: nat,
    pending: map<Name, bool>,  // with the owner's x bit, which marks a complete message
    accepted: set<Name>,
    rejected: set<Name>,
    requested: set<Name>,      // names for which the moderators were sent a request
    log: multiset<Entry>)

  // Where a process is in its program. `StoreQueueing` has given the lock back before it queues the request.
  datatype Process =
    | StoreStart
    | StoreNaming(tries: nat)
    | StoreWriting(name: Name)
    | StoreQueueing(name: Name)
    | ModStart(name: Name, accept: bool)
    | ModChecking(name: Name, accept: bool)
    | ModActing(name: Name, accept: bool)
    | ModStub(name: Name, accept: bool)
    | ModUnlink(name: Name, accept: bool)
    | CleanStart(older: nat, reply: bool)
    | CleanSweep(older: nat, reply: bool, dir: Where)
    | CleanNotify(older: nat, reply: bool, name: Name)
    | CleanUnlink(older: nat, reply: bool, dir: Where, name: Name, notified: bool)
    | Done
  {
    predicate WantsLock() {
      StoreStart? || ModStart? || CleanStart?
    }

    predicate HoldsLock() {
      !WantsLock() && !StoreQueueing? && !Done?
    }
  }

  // `Go` with the success of the next call; `See` for a name that the directory gives; `Refuse` for a
  // message that loops; `PostedLate` for a command that posts and then fails, or outlives its parent.
  datatype Action = Go(ok: bool) | See(name: Name) | Refuse(ok: bool) | PostedLate | Die

  predicate Allowed(p: Process, a: Action) {
    match a
    case Go(_) => !p.Done?
    case See(_) => p.CleanSweep?
    case Refuse(_) => p.StoreWriting?
    case PostedLate => p.ModActing? && p.accept
    case Die => true
  }

  function Log(d: Mods, e: Entry): Mods {
    d.(log := d.log + multiset{e})
  }

  function Without(m: map<Name, bool>, n: Name): map<Name, bool> {
    map k | k in m && k != n :: m[k]
  }

  /** The effect has happened and the message has not been unlinked. */
  predicate Owes(p: Process, n: Name) {
    ((p.ModStub? || p.ModUnlink?) && p.name == n) || (p.CleanUnlink? && p.notified && p.name == n)
  }

  /** What the death of a process leaves behind. */
  function Lose(d: Mods, p: Process): Mods {
    if (p.ModStub? || p.ModUnlink? || p.CleanUnlink?) && Owes(p, p.name) then Log(d, Fault(p.name)) else d
  }

  // ---- ezmlm-store ----

  /** Lines 205-220, 244-246, 308-357 and 380-384. A name that is taken is tried three times. */
  function StoreStep(d: Mods, pid: nat, p: Process, a: Action): (Mods, Process)
    requires p.StoreNaming? || p.StoreWriting? || p.StoreQueueing?
  {
    match p
    case StoreNaming(tries) =>
      var n := Name(d.clock, pid);
      if n in d.pending then (d, if tries == 2 then Done else StoreNaming(tries + 1))
      else if a == Go(true) then (Log(d.(pending := d.pending[n := false]), Stored(n)), StoreWriting(n))
      else (d, Done)
    case StoreWriting(n) =>
      if a == Go(true) then (d.(pending := d.pending[n := true]), StoreQueueing(n))
      else if a == Refuse(true) then (Log(d.(pending := Without(d.pending, n)), Erased(n)), Done)
      else (d, Done)
    case StoreQueueing(n) =>
      (if a == Go(true) then d.(requested := d.requested + {n}) else d, Done)
  }

  // ---- ezmlm-moderate ----

  /** `checkfile`. */
  function CheckFile(d: Mods, n: Name): Where {
    if n in d.pending then InPending
    else if n in d.accepted then InAccepted
    else if n in d.rejected then InRejected
    else Nowhere
  }

  function Effect(accept: bool, n: Name): Entry {
    if accept then Posted(n) else Returned(n)
  }

  /** Lines 230-245, 400-408 and 428-450. The stub is a courtesy: failing to write it changes nothing. */
  function ModStep(d: Mods, p: Process, a: Action): (Mods, Process)
    requires p.ModChecking? || p.ModActing? || p.ModStub? || p.ModUnlink?
  {
    match p
    case ModChecking(n, accept) =>
      var found := CheckFile(d, n);
      if found != InPending then (Log(d, Told(n, found)), Done)
      else (d, if a == Go(true) then ModActing(n, accept) else Done)
    case ModActing(n, accept) =>
      if a == Go(true) then (Log(d, Effect(accept, n)), ModStub(n, accept))
      else if a == PostedLate then (Log(Log(d, Effect(accept, n)), Fault(n)), Done)
      else (d, Done)
    case ModStub(n, accept) =>
      (if a != Go(true) then d
       else if accept then d.(accepted := d.accepted + {n})
       else d.(rejected := d.rejected + {n}), ModUnlink(n, accept))
    case ModUnlink(n, accept) =>
      (if a == Go(true) then d.(pending := Without(d.pending, n)) else Log(d, Fault(n)), Done)
  }

  // ---- ezmlm-clean ----

  const DELAY_MIN := 24

  const DELAY_DEFAULT := 120

  const DELAY_MAX := 240

  const TWO32: nat := 0x1_0000_0000

  /** Lines 237-242: the delay in hours. */
  function Delay(modtime: nat): (delay: nat)
    ensures DELAY_MIN <= delay <= DELAY_MAX
  {
    if modtime == 0 then DELAY_DEFAULT
    else if modtime < DELAY_MIN then DELAY_MIN
    else if modtime > DELAY_MAX then DELAY_MAX
    else modtime
  }

  /** A configured delay is taken as it is if it is allowed, and else the nearest that is; 0 stands for 120. */
  lemma DelayIsNearest(modtime: nat, other: nat)
    requires modtime > 0 && 24 <= other <= 240 && other != Delay(modtime)
    ensures Distance(Delay(modtime), modtime) < Distance(other, modtime)
  {
  }

  lemma DelayIsTaken(modtime: nat)
    ensures modtime == 0 ==> Delay(modtime) == 120
    ensures 24 <= modtime <= 240 ==> Delay(modtime) == modtime
  {
  }

  function Distance(a: nat, b: nat): nat {
    if a < b then b - a else a - b
  }

  /** Line 243: the time before which a file is too old, cut to the 32 bits of an unsigned int. So it is never
      too late, and it is right until the time no longer fits. */
  function Older(clock: nat, modtime: nat): (older: nat)
    ensures DELAY_MAX * 3600 <= clock ==> older + DELAY_MIN * 3600 <= clock
    ensures DELAY_MAX * 3600 <= clock ==>
              (clock <= older + DELAY_MAX * 3600 <==> clock - 3600 * Delay(modtime) < TWO32)
    ensures DELAY_MAX * 3600 <= clock ==>
              (older == clock - 3600 * Delay(modtime) <==> clock - 3600 * Delay(modtime) < TWO32)
  {
    (clock - 3600 * Delay(modtime)) % TWO32
  }

  predicate InDir(d: Mods, dir: Where, n: Name) {
    match dir
    case InPending => n in d.pending
    case InAccepted => n in d.accepted
    case InRejected => n in d.rejected
    case Nowhere => false
  }

  function Unlinked(d: Mods, dir: Where, n: Name): Mods {
    match dir
    case InPending => d.(pending := Without(d.pending, n))
    case InAccepted => d.(accepted := d.accepted - {n})
    case InRejected => d.(rejected := d.rejected - {n})
    case Nowhere => d
  }

  /** `sendnotice` and `dodir`. Whatever fails in the notice ends the program before the file is unlinked. */
  function CleanStep(d: Mods, p: Process, a: Action): (Mods, Process)
    requires p.CleanSweep? || p.CleanNotify? || p.CleanUnlink?
  {
    match p
    case CleanSweep(older, reply, dir) =>
      if a.See? then
        if !InDir(d, dir, a.name) || a.name.time >= older then (d, p)
        else if dir == InPending && reply && d.pending[a.name] then (d, CleanNotify(older, reply, a.name))
        else (d, CleanUnlink(older, reply, dir, a.name, false))
      else if dir == InPending then (d, CleanSweep(older, reply, InAccepted))
      else if dir == InAccepted then (d, CleanSweep(older, reply, InRejected))
      else (d, Done)
    case CleanNotify(older, reply, n) =>
      if a == Go(true) then (Log(d, TimedOut(n)), CleanUnlink(older, reply, InPending, n, true)) else (d, Done)
    case CleanUnlink(older, reply, dir, n, notified) =>
      var d' := if a == Go(true) then Unlinked(d, dir, n) else d;
      (if a == Go(true) && dir == InPending && !notified then Log(d', Erased(n))
       else if a != Go(true) && notified then Log(d', Fault(n))
       else d',
       CleanSweep(older, reply, dir))
  }

  // ---- any number of processes ----

  /** A process without the lock takes it with its next step. */
  function Step(d: Mods, pid: nat, p: Process, a: Action): (Mods, Process)
    requires !p.Done?
  {
    if a.Die? then (Lose(d, p), Done)
    else
      match p
      case StoreStart => (d, StoreNaming(0))
      case ModStart(n, accept) => (d, ModChecking(n, accept))
      case CleanStart(older, reply) => (d, CleanSweep(older, reply, InPending))
      case StoreNaming(_) => StoreStep(d, pid, p, a)
      case StoreWriting(_) => StoreStep(d, pid, p, a)
      case StoreQueueing(_) => StoreStep(d, pid, p, a)
      case ModChecking(_, _) => ModStep(d, p, a)
      case ModActing(_, _) => ModStep(d, p, a)
      case ModStub(_, _) => ModStep(d, p, a)
      case ModUnlink(_, _) => ModStep(d, p, a)
      case CleanSweep(_, _, _) => CleanStep(d, p, a)
      case CleanNotify(_, _, _) => CleanStep(d, p, a)
      case CleanUnlink(_, _, _, _, _) => CleanStep(d, p, a)
  }

  datatype State = State(mods: Mods, lock: Option<nat>, procs: map<nat, Process>)

  /** The clock starts late enough for the longest delay. */
  function Initial(clock: nat): State
    requires DELAY_MAX * 3600 <= clock
  {
    State(Mods(clock, map[], {}, {}, {}, multiset{}), None, map[])
  }

  datatype Event =
    | Tick
    | StartStore(pid: nat)
    | StartModerate(pid: nat, name: Name, accept: bool)
    | StartClean(pid: nat, modtime: nat, reply: bool)
    | Act(pid: nat, action: Action)

  /** Only who was sent a request can make one: the address carries a keyed hash of the name. */
  predicate Enabled(s: State, e: Event) {
    match e
    case Tick => true
    case StartStore(pid) => pid !in s.procs
    case StartModerate(pid, n, _) => pid !in s.procs && n in s.mods.requested
    case StartClean(pid, _, _) => pid !in s.procs
    case Act(pid, a) =>
      && pid in s.procs && !s.procs[pid].Done? && Allowed(s.procs[pid], a)
      && (s.procs[pid].WantsLock() && !a.Die? ==> s.lock.None?)
  }

  function Apply(s: State, e: Event): State
    requires Enabled(s, e)
  {
    match e
    case Tick => s.(mods := s.mods.(clock := s.mods.clock + 1))
    case StartStore(pid) => s.(procs := s.procs[pid := StoreStart])
    case StartModerate(pid, n, accept) => s.(procs := s.procs[pid := ModStart(n, accept)])
    case StartClean(pid, modtime, reply) =>
      s.(procs := s.procs[pid := CleanStart(Older(s.mods.clock, modtime), reply)])
    case Act(pid, a) =>
      var (mods, next) := Step(s.mods, pid, s.procs[pid], a);
      State(mods,
            if next.HoldsLock() then Some(pid) else if s.lock == Some(pid) then None else s.lock,
            if next.Done? then s.procs - {pid} else s.procs[pid := next])
  }

  ghost predicate IsRun(s: State, events: seq<Event>)
    decreases |events|
  {
    events == [] || (Enabled(s, events[0]) && IsRun(Apply(s, events[0]), events[1..]))
  }

  ghost function Run(s: State, events: seq<Event>): State
    requires IsRun(s, events)
    decreases |events|
  {
    if events == [] then s else Run(Apply(s, events[0]), events[1..])
  }

  // ---- what holds of one name while `h` holds the lock ----

  function Outcomes(d: Mods, n: Name): nat {
    d.log[Posted(n)] + d.log[Returned(n)] + d.log[TimedOut(n)]
  }

  /** Every stored file and every fault is made up for by an outcome, an erasure or a file that waits. */
  predicate Balanced(d: Mods, h: Process, n: Name) {
    d.log[Stored(n)] + d.log[Fault(n)] + (if Owes(h, n) then 1 else 0)
    == Outcomes(d, n) + d.log[Erased(n)] + if n in d.pending then 1 else 0
  }

  /** The name was stored and, unless it was used again, its file is not left half-written. */
  predicate Complete(d: Mods, n: Name) {
    d.log[Stored(n)] >= 1 && (d.log[Stored(n)] == 1 && n in d.pending ==> d.pending[n])
  }

  predicate Truthful(d: Mods, n: Name) {
    && (n in d.accepted || d.log[Told(n, InAccepted)] > 0 ==> d.log[Posted(n)] > 0)
    && (n in d.rejected || d.log[Told(n, InRejected)] > 0 ==> d.log[Returned(n)] > 0)
    && (d.log[Told(n, Nowhere)] > 0 ==> Outcomes(d, n) + d.log[Erased(n)] > 0)
    && (d.log[TimedOut(n)] > 0 ==> n.time + DELAY_MIN * 3600 < d.clock)
  }

  predicate NameInv(d: Mods, h: Process, n: Name) {
    Balanced(d, h, n) && Truthful(d, n) && (n in d.requested ==> Complete(d, n))
  }

  /** What a process knows. */
  predicate ProcInv(d: Mods, p: Process) {
    match p
    case StoreWriting(n) => n in d.pending && d.log[Stored(n)] >= 1
    case StoreQueueing(n) => Complete(d, n)
    case ModStart(n, _) => n in d.requested
    case ModChecking(n, _) => n in d.requested
    case ModActing(n, _) => n in d.requested && n in d.pending
    case ModStub(n, accept) => n in d.pending && d.log[Effect(accept, n)] > 0
    case ModUnlink(n, _) => n in d.pending
    case CleanStart(older, _) => older + DELAY_MIN * 3600 <= d.clock
    case CleanSweep(older, _, _) => older + DELAY_MIN * 3600 <= d.clock
    case CleanNotify(older, _, n) => older + DELAY_MIN * 3600 <= d.clock && n.time < older && n in d.pending
    case CleanUnlink(older, _, dir, n, notified) =>
      older + DELAY_MIN * 3600 <= d.clock && InDir(d, dir, n) && (notified ==> dir == InPending)
    case _ => true
  }

  function Holder(s: State): Process {
    if s.lock.Some? && s.lock.value in s.procs then s.procs[s.lock.value] else Done
  }

  ghost predicate LockInv(s: State) {
    && (s.lock.Some? ==> s.lock.value in s.procs)
    && forall pid :: pid in s.procs ==> (s.procs[pid].HoldsLock() <==> s.lock == Some(pid))
  }

  ghost predicate Inv(s: State) {
    && LockInv(s)
    && DELAY_MAX * 3600 <= s.mods.clock
    && (forall pid :: pid in s.procs ==> ProcInv(s.mods, s.procs[pid]))
    && forall n :: NameInv(s.mods, Holder(s), n)
  }

  // ---- every step keeps it ----

  lemma Logged(d: Mods, e: Entry)
    ensures forall f :: Log(d, e).log[f] == d.log[f] + if e == f then 1 else 0
    ensures Log(d, e) == d.(log := Log(d, e).log)
  {
  }

  /** What holds the lock, as far as names are concerned. */
  function Held(p: Process): Process {
    if p.HoldsLock() then p else Done
  }

  /** One process went from `p` to `p'` and the files from `d` to `d'`. */
  predicate Kept(d: Mods, d': Mods, p': Process, n: Name) {
    NameInv(d', Held(p'), n) && (Complete(d, n) ==> Complete(d', n)) && d.clock == d'.clock
  }

  /** Nothing that makes an answer true was taken back, and no new answer was given. */
  predicate TruthGrows(d: Mods, d': Mods, n: Name) {
    && (n in d'.accepted ==> n in d.accepted) && (n in d'.rejected ==> n in d.rejected) && d.clock == d'.clock
    && d.log[Posted(n)] <= d'.log[Posted(n)] && d.log[Returned(n)] <= d'.log[Returned(n)]
    && d.log[TimedOut(n)] == d'.log[TimedOut(n)] && d.log[Erased(n)] <= d'.log[Erased(n)]
    && d.log[Told(n, InAccepted)] == d'.log[Told(n, InAccepted)]
    && d.log[Told(n, InRejected)] == d'.log[Told(n, InRejected)]
    && d.log[Told(n, Nowhere)] == d'.log[Told(n, Nowhere)]
  }

  lemma TruthKept(d: Mods, d': Mods, n: Name)
    requires Truthful(d, n) && TruthGrows(d, d', n)
    ensures Truthful(d', n)
  {
  }

  lemma NamingKeepsName(d: Mods, pid: nat, tries: nat, a: Action, n: Name)
    requires NameInv(d, Done, n)
    ensures var (d', p') := StoreStep(d, pid, StoreNaming(tries), a); Kept(d, d', p', n)
  {
    hide Log;
    var m := Name(d.clock, pid);
    Logged(d.(pending := d.pending[m := false]), Stored(m));
  }

  lemma WritingKeepsName(d: Mods, pid: nat, m: Name, a: Action, n: Name)
    requires ProcInv(d, StoreWriting(m)) && NameInv(d, Done, n)
    ensures var (d', p') := StoreStep(d, pid, StoreWriting(m), a); Kept(d, d', p', n)
  {
    hide Log;
    Logged(d.(pending := Without(d.pending, m)), Erased(m));
  }

  lemma QueueingKeepsName(d: Mods, pid: nat, m: Name, a: Action, h: Process, n: Name)
    requires ProcInv(d, StoreQueueing(m)) && NameInv(d, h, n)
    ensures NameInv(StoreStep(d, pid, StoreQueueing(m), a).0, h, n)
    ensures var d' := StoreStep(d, pid, StoreQueueing(m), a).0;
            d.clock == d'.clock && (Complete(d, n) ==> Complete(d', n))
  {
  }

  /** Nothing about `n` differs. */
  ghost predicate SameFor(d: Mods, d': Mods, n: Name) {
    && (forall f: Entry :: f.name == n ==> d.log[f] == d'.log[f])
    && (n in d.pending <==> n in d'.pending) && (n in d.pending ==> d.pending[n] == d'.pending[n])
    && (n in d.accepted <==> n in d'.accepted) && (n in d.rejected <==> n in d'.rejected)
    && (n in d.requested <==> n in d'.requested) && d.clock == d'.clock
  }

  lemma OtherName(d: Mods, d': Mods, p: Process, p': Process, n: Name)
    requires NameInv(d, Held(p), n) && SameFor(d, d', n) && Owes(Held(p), n) == Owes(Held(p'), n)
    ensures Kept(d, d', p', n)
  {
    hide Truthful;
    TruthKept(d, d', n);
  }

  lemma EffectKeepsName(d: Mods, m: Name, accept: bool, n: Name)
    requires m in d.pending && NameInv(d, Done, n)
    ensures Kept(d, Log(d, Effect(accept, m)), ModStub(m, accept), n)
  {
    hide Log, Truthful;
    Logged(d, Effect(accept, m));
    EntryKeepsTruth(d, Effect(accept, m), n);
  }

  /** A posting command that fails leaves what a death behind the effect would leave. */
  lemma ActingKeepsName(d: Mods, m: Name, accept: bool, a: Action, n: Name)
    requires Allowed(ModActing(m, accept), a) && !a.Die? && ProcInv(d, ModActing(m, accept)) && NameInv(d, Done, n)
    ensures var (d', p') := ModStep(d, ModActing(m, accept), a); Kept(d, d', p', n)
  {
    hide Log, Balanced, Truthful, Complete;
    EffectKeepsName(d, m, accept, n);
    DeathKeepsName(Log(d, Effect(accept, m)), ModStub(m, accept), n);
  }

  lemma CheckingKeepsName(d: Mods, m: Name, accept: bool, a: Action, n: Name)
    requires ProcInv(d, ModChecking(m, accept)) && NameInv(d, Done, n)
    ensures var (d', p') := ModStep(d, ModChecking(m, accept), a); Kept(d, d', p', n)
  {
    hide Log;
    Logged(d, Told(m, CheckFile(d, m)));
  }

  lemma StubKeepsName(d: Mods, m: Name, accept: bool, a: Action, n: Name)
    requires ProcInv(d, ModStub(m, accept)) && NameInv(d, ModStub(m, accept), n)
    ensures var (d', p') := ModStep(d, ModStub(m, accept), a); Kept(d, d', p', n)
  {
    hide Truthful;
    StubIsTrue(d, m, accept, a, n);
  }

  lemma StubIsTrue(d: Mods, m: Name, accept: bool, a: Action, n: Name)
    requires ProcInv(d, ModStub(m, accept)) && Truthful(d, n)
    ensures Truthful(ModStep(d, ModStub(m, accept), a).0, n)
  {
  }

  lemma UnlinkKeepsName(d: Mods, m: Name, accept: bool, a: Action, n: Name)
    requires ProcInv(d, ModUnlink(m, accept)) && NameInv(d, ModUnlink(m, accept), n)
    ensures var (d', p') := ModStep(d, ModUnlink(m, accept), a); Kept(d, d', p', n)
  {
    if a != Go(true) {
      DeathKeepsName(d, ModUnlink(m, accept), n);
    }
  }

  lemma SweepKeepsName(d: Mods, p: Process, a: Action, n: Name)
    requires p.CleanSweep? || p.CleanNotify?
    requires ProcInv(d, p) && NameInv(d, Done, n)
    ensures var (d', p') := CleanStep(d, p, a); Kept(d, d', p', n)
  {
    hide Log, Truthful;
    if p.CleanNotify? {
      Logged(d, TimedOut(p.name));
      NoticeIsTrue(d, p.name, n);
    }
  }

  lemma NoticeIsTrue(d: Mods, m: Name, n: Name)
    requires m.time + DELAY_MIN * 3600 < d.clock && Truthful(d, n)
    ensures Truthful(Log(d, TimedOut(m)), n)
  {
    hide Log;
    Logged(d, TimedOut(m));
  }

  lemma CleanedKeepsName(d: Mods, p: Process, a: Action, n: Name)
    requires p.CleanUnlink? && ProcInv(d, p) && NameInv(d, p, n)
    ensures var (d', p') := CleanStep(d, p, a); Kept(d, d', p', n)
  {
    hide Log, Balanced, Truthful, Complete, SameFor;
    if a != Go(true) {
      DeathKeepsName(d, p, n);
      SweepOwesNothing(d, Lose(d, p), CleanSweep(p.older, p.reply, p.dir), n);
    } else if n != p.name {
      OtherCleaned(d, p, n);
      OtherName(d, CleanStep(d, p, a).0, p, CleanSweep(p.older, p.reply, p.dir), n);
    } else {
      GoneKeepsName(d, p);
    }
  }

  lemma OtherCleaned(d: Mods, p: Process, n: Name)
    requires p.CleanUnlink? && n != p.name
    ensures SameFor(d, CleanStep(d, p, Go(true)).0, n)
  {
    hide Log;
    Logged(Unlinked(d, p.dir, p.name), Erased(p.name));
  }

  lemma SweepOwesNothing(d: Mods, d': Mods, p: Process, n: Name)
    requires p.CleanSweep? && Kept(d, d', Done, n)
    ensures Kept(d, d', p, n)
  {
  }

  lemma GoneKeepsName(d: Mods, p: Process)
    requires p.CleanUnlink? && ProcInv(d, p) && NameInv(d, p, p.name)
    ensures var u := Unlinked(d, p.dir, p.name);
            Kept(d, if p.dir == InPending && !p.notified then Log(u, Erased(p.name)) else u,
                 CleanSweep(p.older, p.reply, p.dir), p.name)
  {
    hide Log, Truthful, TruthGrows;
    var u := Unlinked(d, p.dir, p.name);
    UnlinkedKeepsTruth(d, p.dir, p.name);
    EntryKeepsTruth(u, Erased(p.name), p.name);
    Logged(u, Erased(p.name));
  }

  lemma UnlinkedKeepsTruth(d: Mods, dir: Where, n: Name)
    requires Truthful(d, n)
    ensures Truthful(Unlinked(d, dir, n), n)
  {
    hide Truthful;
    TruthKept(d, Unlinked(d, dir, n), n);
  }

  lemma DeathKeepsName(d: Mods, p: Process, n: Name)
    requires NameInv(d, Held(p), n)
    ensures Kept(d, Lose(d, p), Done, n)
  {
    if (p.ModStub? || p.ModUnlink? || p.CleanUnlink?) && Owes(p, p.name) {
      FaultKeepsName(d, p, n);
    }
  }

  lemma FaultKeepsName(d: Mods, p: Process, n: Name)
    requires (p.ModStub? || p.ModUnlink? || p.CleanUnlink?) && Owes(p, p.name) && NameInv(d, p, n)
    ensures Kept(d, Log(d, Fault(p.name)), Done, n)
  {
    hide Log, Truthful, TruthGrows;
    EntryKeepsTruth(d, Fault(p.name), n);
    Logged(d, Fault(p.name));
  }

  /** An entry that is neither a notice nor an answer. */
  lemma EntryKeepsTruth(d: Mods, e: Entry, n: Name)
    requires !e.TimedOut? && !e.Told? && Truthful(d, n)
    ensures Truthful(Log(d, e), n)
  {
    hide Log, Truthful;
    Logged(d, e);
    TruthKept(d, Log(d, e), n);
  }

  lemma StepKeepsName(d: Mods, pid: nat, p: Process, a: Action, n: Name)
    requires !p.Done? && !p.StoreQueueing? && Allowed(p, a) && ProcInv(d, p) && NameInv(d, Held(p), n)
    ensures var (d', p') := Step(d, pid, p, a); Kept(d, d', p', n)
  {
    hide StoreStep, ModStep, CleanStep, Lose, Truthful, Log;
    if a.Die? {
      DeathKeepsName(d, p, n);
    } else {
      match p
      case StoreNaming(tries) => NamingKeepsName(d, pid, tries, a, n);
      case StoreWriting(m) => WritingKeepsName(d, pid, m, a, n);
      case ModChecking(m, accept) => CheckingKeepsName(d, m, accept, a, n);
      case ModActing(m, accept) => ActingKeepsName(d, m, accept, a, n);
      case ModStub(m, accept) => StubKeepsName(d, m, accept, a, n);
      case ModUnlink(m, accept) => UnlinkKeepsName(d, m, accept, a, n);
      case CleanSweep(_, _, _) => SweepKeepsName(d, p, a, n);
      case CleanNotify(_, _, _) => SweepKeepsName(d, p, a, n);
      case CleanUnlink(_, _, _, _, _) => CleanedKeepsName(d, p, a, n);
      case _ =>
    }
  }

  lemma StoreKeepsProc(d: Mods, pid: nat, p: Process, a: Action)
    requires (p.StoreNaming? || p.StoreWriting? || p.StoreQueueing?) && ProcInv(d, p)
    ensures var (d', p') := StoreStep(d, pid, p, a); ProcInv(d', p')
  {
    hide Log;
    var m := Name(d.clock, pid);
    Logged(d.(pending := d.pending[m := false]), Stored(m));
  }

  lemma ModKeepsProc(d: Mods, p: Process, a: Action)
    requires (p.ModChecking? || p.ModActing? || p.ModStub? || p.ModUnlink?) && ProcInv(d, p)
    ensures var (d', p') := ModStep(d, p, a); ProcInv(d', p')
  {
    hide Log;
    Logged(d, Effect(p.accept, p.name));
  }

  lemma CleanKeepsProc(d: Mods, p: Process, a: Action)
    requires (p.CleanSweep? || p.CleanNotify? || p.CleanUnlink?) && ProcInv(d, p)
    ensures var (d', p') := CleanStep(d, p, a); ProcInv(d', p')
  {
    hide Log;
    if !p.CleanSweep? {
      Logged(d, TimedOut(p.name));
      Logged(d, Fault(p.name));
    }
    if p.CleanUnlink? {
      Logged(Unlinked(d, p.dir, p.name), Erased(p.name));
    }
  }

  /** What the process itself knows next. */
  lemma StepKeepsProc(d: Mods, pid: nat, p: Process, a: Action)
    requires !p.Done? && Allowed(p, a) && ProcInv(d, p)
    ensures var (d', p') := Step(d, pid, p, a); ProcInv(d', p')
  {
    hide StoreStep, ModStep, CleanStep, Lose;
    if !a.Die? && !p.WantsLock() {
      if p.StoreNaming? || p.StoreWriting? || p.StoreQueueing? {
        StoreKeepsProc(d, pid, p, a);
      } else if p.ModChecking? || p.ModActing? || p.ModStub? || p.ModUnlink? {
        ModKeepsProc(d, p, a);
      } else {
        CleanKeepsProc(d, p, a);
      }
    }
  }

  // ---- the whole state ----

  lemma LockPasses(s: State, pid: nat, a: Action)
    requires LockInv(s) && Enabled(s, Act(pid, a)) && !s.procs[pid].StoreQueueing?
    ensures LockInv(Apply(s, Act(pid, a)))
    ensures s.procs[pid].WantsLock() && a.Die? ==> Holder(Apply(s, Act(pid, a))) == Holder(s)
    ensures !(s.procs[pid].WantsLock() && a.Die?) ==>
              && Holder(s) == Held(s.procs[pid])
              && Holder(Apply(s, Act(pid, a))) == Held(Step(s.mods, pid, s.procs[pid], a).1)
  {
    hide StoreStep, ModStep, CleanStep, Lose;
    NextHolds(s.mods, pid, s.procs[pid], a);
  }

  lemma NextHolds(d: Mods, pid: nat, p: Process, a: Action)
    requires !p.Done?
    ensures !Step(d, pid, p, a).1.WantsLock()
  {
    hide Lose, Log;
  }

  /** What others know stays true. */
  lemma OthersKeep(d: Mods, d': Mods, q: Process)
    requires ProcInv(d, q) && !q.HoldsLock() && d.clock <= d'.clock && d.requested <= d'.requested
    requires forall n :: Complete(d, n) ==> Complete(d', n)
    ensures ProcInv(d', q)
  {
    hide Complete;
  }

  lemma RequestsGrow(d: Mods, pid: nat, p: Process, a: Action)
    requires !p.Done?
    ensures d.requested <= Step(d, pid, p, a).0.requested
  {
  }

  lemma HeldStepKeepsInv(s: State, pid: nat, a: Action)
    requires Inv(s) && Enabled(s, Act(pid, a)) && !s.procs[pid].StoreQueueing?
    requires !(s.procs[pid].WantsLock() && a.Die?)
    ensures Inv(Apply(s, Act(pid, a)))
  {
    hide Step, ProcInv, NameInv, Complete, Held;
    var t := Apply(s, Act(pid, a));
    var p := s.procs[pid];
    LockPasses(s, pid, a);
    StepKeepsProc(s.mods, pid, p, a);
    RequestsGrow(s.mods, pid, p, a);
    forall n
      ensures NameInv(t.mods, Holder(t), n) && (Complete(s.mods, n) ==> Complete(t.mods, n))
      ensures t.mods.clock == s.mods.clock
    {
      StepKeepsName(s.mods, pid, p, a, n);
    }
    StepKeepsName(s.mods, pid, p, a, Name(0, 0));
    forall q | q in t.procs && q != pid ensures ProcInv(t.mods, t.procs[q]) {
      OthersKeep(s.mods, t.mods, s.procs[q]);
    }
  }

  /** A step that takes no lock and has none: the request is queued, or a process dies. */
  lemma FreeStepKeepsInv(s: State, pid: nat, a: Action)
    requires Inv(s) && Enabled(s, Act(pid, a))
    requires s.procs[pid].StoreQueueing? || (s.procs[pid].WantsLock() && a.Die?)
    ensures Inv(Apply(s, Act(pid, a)))
  {
    hide ProcInv, NameInv, Complete, StoreStep;
    var t := Apply(s, Act(pid, a));
    var p := s.procs[pid];
    if a.Die? {
      assert t.mods == s.mods;
    } else {
      QueueingKeepsProc(s.mods, pid, p, a);
      forall n
        ensures NameInv(t.mods, Holder(s), n) && (Complete(s.mods, n) ==> Complete(t.mods, n))
      {
        QueueingKeepsName(s.mods, pid, p.name, a, Holder(s), n);
      }
    }
    assert LockInv(t) && Holder(t) == Holder(s);
    forall q | q in t.procs ensures ProcInv(t.mods, t.procs[q]) {
      if !a.Die? {
        QueueingKeepsOther(s.mods, pid, p.name, a, s.procs[q]);
      }
    }
  }

  lemma QueueingKeepsProc(d: Mods, pid: nat, p: Process, a: Action)
    requires p.StoreQueueing?
    ensures var (d', p') := StoreStep(d, pid, p, a);
            p'.Done? && d'.(requested := d.requested) == d
  {
  }

  lemma QueueingKeepsOther(d: Mods, pid: nat, m: Name, a: Action, q: Process)
    requires ProcInv(d, q)
    ensures ProcInv(StoreStep(d, pid, StoreQueueing(m), a).0, q)
  {
  }

  lemma TickKeepsInv(s: State)
    requires Inv(s) && Enabled(s, Tick)
    ensures Inv(Apply(s, Tick))
  {
    hide Balanced, Complete;
    var t := Apply(s, Tick);
    forall n ensures NameInv(t.mods, Holder(t), n) {
      assert NameInv(s.mods, Holder(s), n);
      TickKeepsName(s.mods, Holder(s), n);
    }
    forall q | q in t.procs ensures ProcInv(t.mods, t.procs[q]) {
      TickKeepsProc(s.mods, s.procs[q]);
    }
  }

  lemma TickKeepsName(d: Mods, h: Process, n: Name)
    requires NameInv(d, h, n)
    ensures NameInv(d.(clock := d.clock + 1), h, n)
  {
  }

  lemma TickKeepsProc(d: Mods, p: Process)
    requires ProcInv(d, p)
    ensures ProcInv(d.(clock := d.clock + 1), p)
  {
  }

  lemma StartKeepsInv(s: State, e: Event)
    requires Inv(s) && Enabled(s, e) && !e.Act? && !e.Tick?
    ensures Inv(Apply(s, e))
  {
    hide NameInv;
    var t := Apply(s, e);
    assert t.mods == s.mods && t.lock == s.lock && Holder(t) == Holder(s);
    assert LockInv(t);
    forall q | q in t.procs ensures ProcInv(t.mods, t.procs[q]) {
      if q == e.pid {
        assert ProcInv(t.mods, t.procs[q]);
      } else {
        assert ProcInv(s.mods, s.procs[q]);
      }
    }
  }

  lemma StepKeepsInv(s: State, e: Event)
    requires Inv(s) && Enabled(s, e)
    ensures Inv(Apply(s, e))
  {
    hide Inv, Step;
    match e
    case Tick => TickKeepsInv(s);
    case Act(pid, a) =>
      if s.procs[pid].StoreQueueing? || (s.procs[pid].WantsLock() && a.Die?) {
        FreeStepKeepsInv(s, pid, a);
      } else {
        HeldStepKeepsInv(s, pid, a);
      }
    case _ => StartKeepsInv(s, e);
  }

  lemma {:induction false} RunKeepsInv(s: State, events: seq<Event>)
    requires Inv(s) && IsRun(s, events)
    ensures Inv(Run(s, events))
    decreases |events|
  {
    hide Inv;
    if events != [] {
      StepKeepsInv(s, events[0]);
      RunKeepsInv(Apply(s, events[0]), events[1..]);
    }
  }

  lemma InitialInv(clock: nat)
    requires DELAY_MAX * 3600 <= clock
    ensures Inv(Initial(clock))
  {
  }

  // ---- what it means ----

  /** Over every run, for every name: while no process is between an effect and its unlink, the files
      stored under the name and the faults together are exactly the outcomes, the silent erasures and the
      file that waits. So there are never more outcomes than stored files and faults. */
  lemma OutcomesBalance(clock: nat, events: seq<Event>, n: Name)
    requires DELAY_MAX * 3600 <= clock && IsRun(Initial(clock), events)
    ensures var s := Run(Initial(clock), events); var d := s.mods;
            && Outcomes(d, n) + d.log[Erased(n)] <= d.log[Stored(n)] + d.log[Fault(n)]
            && (s.lock.None? ==>
                  d.log[Stored(n)] + d.log[Fault(n)]
                  == Outcomes(d, n) + d.log[Erased(n)] + if n in d.pending then 1 else 0)
  {
    hide Run, IsRun;
    InitialInv(clock);
    RunKeepsInv(Initial(clock), events);
    var s := Run(Initial(clock), events);
    assert NameInv(s.mods, Holder(s), n);
    if s.lock.Some? {
      assert ProcInv(s.mods, Holder(s));
    }
  }

  /** With unique names and without faults, a message is posted, returned or timed out at most once, and
      exactly once if it was neither erased nor waits; no name has both stubs. */
  lemma AtMostOneOutcome(clock: nat, events: seq<Event>, n: Name)
    requires DELAY_MAX * 3600 <= clock && IsRun(Initial(clock), events)
    requires var d := Run(Initial(clock), events).mods; d.log[Stored(n)] <= 1 && d.log[Fault(n)] == 0
    ensures var s := Run(Initial(clock), events); var d := s.mods;
            && Outcomes(d, n) + d.log[Erased(n)] <= 1
            && !(n in d.accepted && n in d.rejected)
            && (s.lock.None? && d.log[Stored(n)] == 1 && d.log[Erased(n)] == 0 && n !in d.pending
                ==> Outcomes(d, n) == 1)
  {
    hide Run, IsRun;
    OutcomesBalance(clock, events, n);
    StubsAreTrue(clock, events, n);
  }

  /** Whatever fails and whoever dies: a stub, and what a moderator is told on its strength, is true of
      the message; nobody is told that a message is gone while it still waits for its first decision. */
  lemma StubsAreTrue(clock: nat, events: seq<Event>, n: Name)
    requires DELAY_MAX * 3600 <= clock && IsRun(Initial(clock), events)
    ensures var d := Run(Initial(clock), events).mods;
            && (n in d.accepted || d.log[Told(n, InAccepted)] > 0 ==> d.log[Posted(n)] > 0)
            && (n in d.rejected || d.log[Told(n, InRejected)] > 0 ==> d.log[Returned(n)] > 0)
            && (d.log[Told(n, Nowhere)] > 0 ==> Outcomes(d, n) + d.log[Erased(n)] > 0)
  {
    hide Run, IsRun, Balanced;
    InitialInv(clock);
    RunKeepsInv(Initial(clock), events);
    var s := Run(Initial(clock), events);
    assert NameInv(s.mods, Holder(s), n);
  }

  /** No message times out before it is a day old. */
  lemma TimedOutIsOld(clock: nat, events: seq<Event>, n: Name)
    requires DELAY_MAX * 3600 <= clock && IsRun(Initial(clock), events)
    requires Run(Initial(clock), events).mods.log[TimedOut(n)] > 0
    ensures n.time + DELAY_MIN * 3600 < Run(Initial(clock), events).mods.clock
  {
    hide Run, IsRun, Balanced;
    InitialInv(clock);
    RunKeepsInv(Initial(clock), events);
    var s := Run(Initial(clock), events);
    assert NameInv(s.mods, Holder(s), n);
  }

  /** Only complete messages are posted or returned, although a store may die half-way: who decides about a
      message has it whole and locked. And the lock excludes: one process at most is at work on the files. */
  lemma OnlyCompleteIsDecided(clock: nat, events: seq<Event>, pid: nat, pid': nat)
    requires DELAY_MAX * 3600 <= clock && IsRun(Initial(clock), events)
    ensures var s := Run(Initial(clock), events);
            pid in s.procs && s.procs[pid].ModActing? && s.mods.log[Stored(s.procs[pid].name)] <= 1
            ==> s.procs[pid].name in s.mods.pending && s.mods.pending[s.procs[pid].name]
    ensures var s := Run(Initial(clock), events);
            pid in s.procs && pid' in s.procs && s.procs[pid].HoldsLock() && s.procs[pid'].HoldsLock() ==> pid == pid'
  {
    hide Run, IsRun, Balanced, Truthful;
    InitialInv(clock);
    RunKeepsInv(Initial(clock), events);
    var s := Run(Initial(clock), events);
    if pid in s.procs && s.procs[pid].ModActing? {
      assert NameInv(s.mods, Holder(s), s.procs[pid].name);
    }
  }

  /** A store gives the lock back with its complete file, before it queues the request: others need not wait
      for the queue. */
  lemma QueueingHoldsNoLock(clock: nat, events: seq<Event>, pid: nat)
    requires DELAY_MAX * 3600 <= clock && IsRun(Initial(clock), events)
    ensures var s := Run(Initial(clock), events);
            pid in s.procs && s.procs[pid].StoreQueueing? ==>
              && s.lock != Some(pid)
              && forall other :: other in s.procs && s.procs[other].WantsLock() && s.lock.None?
                                 ==> Enabled(s, Act(other, Go(true)))
  {
    hide Run, IsRun;
    InitialInv(clock);
    RunKeepsInv(Initial(clock), events);
  }

  // ---- what a fault costs ----

  lemma RunFirst(s: State, e: Event, events: seq<Event>)
    requires Enabled(s, e) && IsRun(Apply(s, e), events)
    ensures IsRun(s, [e] + events) && Run(s, [e] + events) == Run(Apply(s, e), events)
  {
    assert ([e] + events)[1..] == events;
  }

  /** The moderator's process at `p`, alone with the files `mods`. */
  function Alone(s: State, mods: Mods, pid: nat, p: Process): State {
    State(mods, if p.HoldsLock() then Some(pid) else None, s.procs[pid := p])
  }

  lemma AloneSteps(s: State, mods: Mods, pid: nat, p: Process, a: Action, mods': Mods, p': Process)
    requires s.lock.None? && pid !in s.procs && !p.Done? && Allowed(p, a)
    requires Step(mods, pid, p, a) == (mods', p') && (p'.Done? || p'.HoldsLock())
    ensures Enabled(Alone(s, mods, pid, p), Act(pid, a))
    ensures Apply(Alone(s, mods, pid, p), Act(pid, a))
            == if p'.Done? then State(mods', None, s.procs) else Alone(s, mods', pid, p')
  {
    hide Step;
    assert s.procs[pid := p][pid := p'] == s.procs[pid := p'];
    assert s.procs[pid := p] - {pid} == s.procs;
  }

  /** The moves of one decision to accept, from its first on, whose unlink fails. */
  lemma AcceptSteps(d: Mods, pid: nat, n: Name)
    requires n in d.pending
    ensures Step(d, pid, ModStart(n, true), Go(true)) == (d, ModChecking(n, true))
    ensures Step(d, pid, ModChecking(n, true), Go(true)) == (d, ModActing(n, true))
    ensures Step(d, pid, ModActing(n, true), Go(true)) == (Log(d, Posted(n)), ModStub(n, true))
    ensures Step(d, pid, ModStub(n, true), Go(true)) == (d.(accepted := d.accepted + {n}), ModUnlink(n, true))
    ensures Step(d, pid, ModUnlink(n, true), Go(false)) == (Log(d, Fault(n)), Done)
  {
    hide Log;
  }

  function Attempt(pid: nat, n: Name): seq<Event> {
    [StartModerate(pid, n, true)] + Accepting(pid, 4)
  }

  /** The last `left` steps with success, and one without. */
  function Accepting(pid: nat, left: nat): seq<Event> {
    if left == 0 then [Act(pid, Go(false))] else [Act(pid, Go(true))] + Accepting(pid, left - 1)
  }

  lemma AcceptingRuns(s: State, d: Mods, pid: nat, n: Name) returns (t: State)
    requires pid !in s.procs && s.lock.None? && n in d.pending
    ensures var s1 := Alone(s, d, pid, ModStart(n, true));
            IsRun(s1, Accepting(pid, 4)) && Run(s1, Accepting(pid, 4)) == t
    ensures var posted := Log(d, Posted(n));
            t == State(Log(posted.(accepted := d.accepted + {n}), Fault(n)), None, s.procs)
  {
    hide IsRun, Run, Step, Log, Apply, Enabled, Alone;
    var d1 := Log(d, Posted(n));
    LoggedFiles(d, Posted(n));
    var d2 := d1.(accepted := d1.accepted + {n});
    AcceptSteps(d, pid, n);
    AcceptSteps(d1, pid, n);
    AcceptSteps(d2, pid, n);
    t := State(Log(d2, Fault(n)), None, s.procs);
    AloneSteps(s, d2, pid, ModUnlink(n, true), Go(false), Log(d2, Fault(n)), Done);
    RunNothing(t);
    RunFirst(Alone(s, d2, pid, ModUnlink(n, true)), Act(pid, Go(false)), []);
    assert [Act(pid, Go(false))] + [] == Accepting(pid, 0);
    AloneSteps(s, d1, pid, ModStub(n, true), Go(true), d2, ModUnlink(n, true));
    RunFirst(Alone(s, d1, pid, ModStub(n, true)), Act(pid, Go(true)), Accepting(pid, 0));
    AloneSteps(s, d, pid, ModActing(n, true), Go(true), d1, ModStub(n, true));
    RunFirst(Alone(s, d, pid, ModActing(n, true)), Act(pid, Go(true)), Accepting(pid, 1));
    AloneSteps(s, d, pid, ModChecking(n, true), Go(true), d, ModActing(n, true));
    RunFirst(Alone(s, d, pid, ModChecking(n, true)), Act(pid, Go(true)), Accepting(pid, 2));
    AloneSteps(s, d, pid, ModStart(n, true), Go(true), d, ModChecking(n, true));
    RunFirst(Alone(s, d, pid, ModStart(n, true)), Act(pid, Go(true)), Accepting(pid, 3));
  }

  lemma LoggedFiles(d: Mods, e: Entry)
    ensures var l := Log(d, e);
            l.pending == d.pending && l.accepted == d.accepted && l.requested == d.requested
            && l.log == d.log + multiset{e}
  {
  }

  /** The bound of `OutcomesBalance` is reached: a message whose unlink fails is posted again by the next
      request, and again. */
  lemma FailedUnlinkRepeats(s: State, pid: nat, n: Name)
    requires pid !in s.procs && s.lock.None? && n in s.mods.requested && n in s.mods.pending
    ensures IsRun(s, Attempt(pid, n))
    ensures var t := Run(s, Attempt(pid, n));
            && t.procs == s.procs && t.lock.None? && n in t.mods.pending && t.mods.requested == s.mods.requested
            && t.mods.log == s.mods.log + multiset{Posted(n)} + multiset{Fault(n)}
  {
    hide IsRun, Run, Log, Accepting;
    var t := AcceptingRuns(s, s.mods, pid, n);
    RunFirst(s, StartModerate(pid, n, true), Accepting(pid, 4));
    var d1 := Log(s.mods, Posted(n));
    LoggedFiles(s.mods, Posted(n));
    LoggedFiles(d1.(accepted := s.mods.accepted + {n}), Fault(n));
  }

  lemma RunNothing(s: State)
    ensures IsRun(s, []) && Run(s, []) == s
  {
  }
}
