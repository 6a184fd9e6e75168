/** The programs of the moderation queue as the code that they are, each under the lock; every run is
    shown to take steps of `Moderation`. Whether a call succeeds is given. */
module ModFiles {
  import opened Moderation
  import opened Options

  // While a process is left alone, time passes between its steps.
  datatype Move = Sleep(seconds: nat) | Do(action: Action)

  function Moved(d: Mods, pid: nat, p: Process, m: Move): (Mods, Process)
    requires !p.Done?
  {
    match m
    case Sleep(seconds) => (d.(clock := d.clock + seconds), p)
    case Do(a) => Step(d, pid, p, a)
  }

  /** A process left alone, move by move. */
  function Moves(d: Mods, pid: nat, p: Process, moves: seq<Move>): (Mods, Process)
    decreases |moves|
  {
    if moves == [] || p.Done? then (d, p)
    else
      var (d', p') := Moved(d, pid, p, moves[0]);
      Moves(d', pid, p', moves[1..])
  }

  ghost predicate AllAllowed(d: Mods, pid: nat, p: Process, moves: seq<Move>)
    decreases |moves|
  {
    moves != [] ==>
      && !p.Done? && (moves[0].Do? ==> Allowed(p, moves[0].action))
      && AllAllowed(Moved(d, pid, p, moves[0]).0, pid, Moved(d, pid, p, moves[0]).1, moves[1..])
  }

  ghost predicate Takes(d: Mods, pid: nat, p: Process, moves: seq<Move>, d': Mods, p': Process) {
    AllAllowed(d, pid, p, moves) && Moves(d, pid, p, moves) == (d', p')
  }

  lemma TakesNothing(d: Mods, pid: nat, p: Process)
    ensures Takes(d, pid, p, [], d, p)
  {
  }

  /** One more move at the end. */
  lemma {:induction false} TakesMove(d: Mods, pid: nat, p: Process, moves: seq<Move>, d': Mods, p': Process, m: Move)
    requires Takes(d, pid, p, moves, d', p') && !p'.Done? && (m.Do? ==> Allowed(p', m.action))
    ensures Takes(d, pid, p, moves + [m], Moved(d', pid, p', m).0, Moved(d', pid, p', m).1)
    decreases |moves|
  {
    hide Moved;
    if moves == [] {
      assert moves + [m] == [m] && [m][1..] == [];
      TakesNothing(Moved(d', pid, p', m).0, pid, Moved(d', pid, p', m).1);
    } else {
      var (e, q) := Moved(d, pid, p, moves[0]);
      TakesMove(e, pid, q, moves[1..], d', p', m);
      assert (moves + [m])[1..] == moves[1..] + [m];
    }
  }

  lemma TakesOne(d: Mods, pid: nat, p: Process, moves: seq<Move>, d': Mods, p': Process, a: Action)
    requires Takes(d, pid, p, moves, d', p') && !p'.Done? && Allowed(p', a)
    ensures Takes(d, pid, p, moves + [Do(a)], Step(d', pid, p', a).0, Step(d', pid, p', a).1)
  {
    hide Takes, Step;
    TakesMove(d, pid, p, moves, d', p', Do(a));
  }

  lemma TakesSleep(d: Mods, pid: nat, p: Process, moves: seq<Move>, d': Mods, p': Process, seconds: nat)
    requires Takes(d, pid, p, moves, d', p') && !p'.Done?
    ensures Takes(d, pid, p, moves + [Sleep(seconds)], d'.(clock := d'.clock + seconds), p')
  {
    hide Takes, Step;
    TakesMove(d, pid, p, moves, d', p', Sleep(seconds));
  }

  lemma {:induction false} TakesJoin(d: Mods, pid: nat, p: Process, m1: seq<Move>, d1: Mods, p1: Process,
                                     m2: seq<Move>, d2: Mods, p2: Process)
    requires Takes(d, pid, p, m1, d1, p1) && Takes(d1, pid, p1, m2, d2, p2)
    ensures Takes(d, pid, p, m1 + m2, d2, p2)
    decreases |m1|
  {
    hide Moved;
    if m1 == [] {
      assert m1 + m2 == m2;
    } else {
      var (e, q) := Moved(d, pid, p, m1[0]);
      TakesJoin(e, pid, q, m1[1..], d1, p1, m2, d2, p2);
      assert (m1 + m2)[1..] == m1[1..] + m2;
    }
  }

  predicate AllTrue(s: seq<bool>) {
    forall i :: 0 <= i < |s| ==> s[i]
  }

  /** A poster is to be told. */
  predicate Due(d: Mods, dir: Where, reply: bool, older: nat, n: Name) {
    dir == InPending && reply && n.time < older && n in d.pending && d.pending[n]
  }

  /** The other directories have `n` as before. */
  predicate SameElsewhere(d: Mods, d': Mods, dir: Where, n: Name) {
    && (dir != InPending ==> (n in d'.pending <==> n in d.pending))
    && (dir != InAccepted ==> (n in d'.accepted <==> n in d.accepted))
    && (dir != InRejected ==> (n in d'.rejected <==> n in d.rejected))
  }

  /** What a sweep from `d` has done to `n`: if it was seen and too old, it is gone, and its poster, if he
      was to be told, was told once. */
  predicate SweptAt(d: Mods, d': Mods, dir: Where, reply: bool, older: nat, seen: bool, unlinked: bool, n: Name) {
    && (unlinked ==> (InDir(d', dir, n) <==> InDir(d, dir, n) && !(seen && n.time < older)))
    && SameElsewhere(d, d', dir, n)
    && d'.log[TimedOut(n)] == d.log[TimedOut(n)] + if seen && Due(d, dir, reply, older, n) then 1 else 0
  }

  ghost predicate Swept(d: Mods, d': Mods, dir: Where, reply: bool, older: nat, seen: seq<Name>, unlinked: bool) {
    forall n :: SweptAt(d, d', dir, reply, older, n in seen, unlinked, n)
  }

  predicate UntouchedAt(d: Mods, d': Mods, dir: Where, reply: bool, older: nat, n: Name) {
    InDir(d, dir, n) && InDir(d', dir, n) && (Due(d', dir, reply, older, n) <==> Due(d, dir, reply, older, n))
  }

  /** The files `ahead` have not been touched. */
  ghost predicate Untouched(d: Mods, d': Mods, dir: Where, reply: bool, older: nat, ahead: seq<Name>) {
    forall n :: n in ahead ==> UntouchedAt(d, d', dir, reply, older, n)
  }

  predicate DoneAt(d: Mods, d': Mods, dir: Where, reply: bool, older: nat, name: Name, unlink: bool, n: Name) {
    && (InDir(d', dir, n) <==> InDir(d, dir, n) && !(unlink && n == name)) && SameElsewhere(d, d', dir, n)
    && (n != name ==> (Due(d', dir, reply, older, n) <==> Due(d, dir, reply, older, n)))
    && d'.log[TimedOut(n)] == d.log[TimedOut(n)] + if n == name && Due(d, dir, reply, older, n) then 1 else 0
  }

  /** One file that is too old was dealt with. */
  ghost predicate FileDone(d: Mods, d': Mods, dir: Where, reply: bool, older: nat, name: Name, unlink: bool) {
    forall n :: DoneAt(d, d', dir, reply, older, name, unlink, n)
  }

  lemma SweptMoreAt(d: Mods, d1: Mods, d2: Mods, dir: Where, reply: bool, older: nat, name: Name, seen: bool,
                    unlink: bool, unlinked: bool, n: Name)
    requires SweptAt(d, d1, dir, reply, older, seen, unlinked, n) && (unlinked ==> unlink)
    requires n == name ==> !seen && UntouchedAt(d, d1, dir, reply, older, n)
    requires if name.time < older then DoneAt(d1, d2, dir, reply, older, name, unlink, n) else d2 == d1
    ensures SweptAt(d, d2, dir, reply, older, seen || n == name, unlinked, n)
    ensures n != name && UntouchedAt(d, d1, dir, reply, older, n) ==> UntouchedAt(d, d2, dir, reply, older, n)
  {
    hide InDir;
  }

  lemma SweptMore(d: Mods, d1: Mods, d2: Mods, dir: Where, reply: bool, older: nat, seen: seq<Name>, name: Name,
                  ahead: seq<Name>, unlink: bool, unlinked: bool)
    requires Swept(d, d1, dir, reply, older, seen, unlinked) && Untouched(d, d1, dir, reply, older, [name] + ahead)
    requires name !in seen && name !in ahead && (unlinked ==> unlink)
    requires if name.time < older then FileDone(d1, d2, dir, reply, older, name, unlink) else d2 == d1
    ensures Swept(d, d2, dir, reply, older, seen + [name], unlinked) && Untouched(d, d2, dir, reply, older, ahead)
  {
    hide SweptAt, UntouchedAt, DoneAt;
    forall n
      ensures SweptAt(d, d2, dir, reply, older, n in seen + [name], unlinked, n)
      ensures n in ahead ==> UntouchedAt(d, d2, dir, reply, older, n)
    {
      assert name in [name] + ahead && (n in ahead ==> n in [name] + ahead);
      assert (n in seen + [name]) == (n in seen || n == name);
      SweptMoreAt(d, d1, d2, dir, reply, older, name, n in seen, unlink, unlinked, n);
    }
  }

  // ---- a whole sweep ----

  /** What a directory lists, each file once. */
  ghost predicate Lists(d: Mods, dir: Where, listing: seq<Name>) {
    && (forall i, j :: 0 <= i < j < |listing| ==> listing[i] != listing[j])
    && forall n :: n in listing <==> InDir(d, dir, n)
  }

  ghost predicate Elsewhere(d: Mods, d': Mods, dir: Where) {
    forall n :: SameElsewhere(d, d', dir, n)
  }

  /** What is left in the three directories is exactly what is not too old. */
  ghost predicate Cleaned(d: Mods, d': Mods, older: nat) {
    forall n ::
      && (n in d'.pending <==> n in d.pending && n.time >= older)
      && (n in d'.accepted <==> n in d.accepted && n.time >= older)
      && (n in d'.rejected <==> n in d.rejected && n.time >= older)
  }

  /** The poster of each complete message that is too old was told once, and no other. */
  ghost predicate Notified(d: Mods, d': Mods, reply: bool, older: nat) {
    forall n :: d'.log[TimedOut(n)]
                == d.log[TimedOut(n)]
                   + if reply && n in d.pending && d.pending[n] && n.time < older then 1 else 0
  }

  lemma ListsOnce(d: Mods, dir: Where, listing: seq<Name>)
    requires Lists(d, dir, listing)
    ensures forall i, j :: 0 <= i < j < |listing| ==> listing[i] != listing[j]
    ensures forall n :: n in listing ==> InDir(d, dir, n)
  {
    hide InDir;
  }

  lemma SweptElsewhere(d: Mods, d': Mods, dir: Where, reply: bool, older: nat, seen: seq<Name>, unlinked: bool)
    requires Swept(d, d', dir, reply, older, seen, unlinked)
    ensures Elsewhere(d, d', dir)
  {
    hide InDir, SameElsewhere;
    forall n ensures SameElsewhere(d, d', dir, n) {
      assert SweptAt(d, d', dir, reply, older, n in seen, unlinked, n);
    }
  }

  lemma ListsElsewhere(d: Mods, d': Mods, dir: Where, other: Where, listing: seq<Name>)
    requires Elsewhere(d, d', dir) && dir != other && Lists(d, other, listing)
    ensures Lists(d', other, listing)
  {
    forall n ensures InDir(d', other, n) <==> InDir(d, other, n) {
      assert SameElsewhere(d, d', dir, n);
    }
  }

  lemma StartsSweep(d: Mods, pid: nat, older: nat, reply: bool)
    ensures Takes(d, pid, CleanStart(older, reply), [Do(Go(true))], d, CleanSweep(older, reply, InPending))
  {
    TakesNothing(d, pid, CleanStart(older, reply));
    TakesOne(d, pid, CleanStart(older, reply), [], d, CleanStart(older, reply), Go(true));
    assert [] + [Do(Go(true))] == [Do(Go(true))];
  }

  lemma NextDir(d0: Mods, pid: nat, start: Process, before: seq<Move>, d: Mods, older: nat, reply: bool,
                dir: Where, next: Where) returns (moves: seq<Move>)
    requires Takes(d0, pid, start, before, d, CleanSweep(older, reply, dir))
    requires (dir == InPending && next == InAccepted) || (dir == InAccepted && next == InRejected)
    ensures Takes(d0, pid, start, moves, d, CleanSweep(older, reply, next))
  {
    hide Takes;
    TakesOne(d0, pid, start, before, d, CleanSweep(older, reply, dir), Go(true));
    moves := before + [Do(Go(true))];
  }

  lemma LastDir(d0: Mods, pid: nat, start: Process, before: seq<Move>, d: Mods, older: nat, reply: bool)
    returns (moves: seq<Move>)
    requires Takes(d0, pid, start, before, d, CleanSweep(older, reply, InRejected))
    ensures Takes(d0, pid, start, moves, d, Done)
  {
    hide Takes;
    TakesOne(d0, pid, start, before, d, CleanSweep(older, reply, InRejected), Go(true));
    moves := before + [Do(Go(true))];
  }

  lemma AllParts(unlink: seq<bool>, a: nat, b: nat)
    requires a <= b <= |unlink|
    ensures AllTrue(unlink) ==> AllTrue(unlink[..a]) && AllTrue(unlink[a..b]) && AllTrue(unlink[b..])
  {
  }

  lemma CleanedAll(d: Mods, d1: Mods, d2: Mods, d3: Mods, reply: bool, older: nat, inPending: seq<Name>,
                   inAccepted: seq<Name>, inRejected: seq<Name>, u1: bool, u2: bool, u3: bool)
    requires Lists(d, InPending, inPending) && Lists(d1, InAccepted, inAccepted) && Lists(d2, InRejected, inRejected)
    requires Swept(d, d1, InPending, reply, older, inPending, u1)
    requires Swept(d1, d2, InAccepted, reply, older, inAccepted, u2)
    requires Swept(d2, d3, InRejected, reply, older, inRejected, u3)
    ensures u1 && u2 && u3 ==> Cleaned(d, d3, older)
    ensures Notified(d, d3, reply, older)
  {
    hide SweptAt, Lists;
    forall n
      ensures u1 && u2 && u3 ==>
                && (n in d3.pending <==> n in d.pending && n.time >= older)
                && (n in d3.accepted <==> n in d.accepted && n.time >= older)
                && (n in d3.rejected <==> n in d.rejected && n.time >= older)
      ensures d3.log[TimedOut(n)]
              == d.log[TimedOut(n)] + if reply && n in d.pending && d.pending[n] && n.time < older then 1 else 0
    {
      ListsAt(d, InPending, inPending, n);
      ListsAt(d1, InAccepted, inAccepted, n);
      ListsAt(d2, InRejected, inRejected, n);
      assert SweptAt(d, d1, InPending, reply, older, n in inPending, u1, n);
      assert SweptAt(d1, d2, InAccepted, reply, older, n in inAccepted, u2, n);
      assert SweptAt(d2, d3, InRejected, reply, older, n in inRejected, u3, n);
      CleanedAt(d, d1, d2, d3, reply, older, n, u1, u2, u3);
    }
  }

  lemma ListsAt(d: Mods, dir: Where, listing: seq<Name>, n: Name)
    requires Lists(d, dir, listing)
    ensures n in listing <==> InDir(d, dir, n)
  {
    hide InDir;
  }

  lemma CleanedAt(d: Mods, d1: Mods, d2: Mods, d3: Mods, reply: bool, older: nat, n: Name, u1: bool, u2: bool, u3: bool)
    requires SweptAt(d, d1, InPending, reply, older, n in d.pending, u1, n)
    requires SweptAt(d1, d2, InAccepted, reply, older, n in d1.accepted, u2, n)
    requires SweptAt(d2, d3, InRejected, reply, older, n in d2.rejected, u3, n)
    ensures u1 && u2 && u3 ==>
              && (n in d3.pending <==> n in d.pending && n.time >= older)
              && (n in d3.accepted <==> n in d.accepted && n.time >= older)
              && (n in d3.rejected <==> n in d.rejected && n.time >= older)
    ensures d3.log[TimedOut(n)]
            == d.log[TimedOut(n)] + if reply && n in d.pending && d.pending[n] && n.time < older then 1 else 0
  {
  }

  class ModDir {
    var pending: map<Name, bool>
    var accepted: set<Name>
    var rejected: set<Name>

    constructor ()
      ensures pending == map[] && accepted == {} && rejected == {}
    {
      pending, accepted, rejected := map[], {}, {};
    }

    ghost predicate Shows(d: Mods)
      reads this
    {
      pending == d.pending && accepted == d.accepted && rejected == d.rejected
    }

    /** `checkfile`: the three directories in turn. */
    method CheckFile(fn: Name, ghost d: Mods) returns (r: int)
      requires Shows(d)
      ensures r == match Moderation.CheckFile(d, fn)
                   case InPending => 1
                   case InAccepted => -1
                   case InRejected => -2
                   case Nowhere => 0
    {
      if fn in pending {
        return 1;
      }
      if fn in accepted {
        return -1;
      }
      if fn in rejected {
        return -2;
      }
      return 0;
    }

    /** The naming loop of ezmlm-store, with what the clock says at each of the three tries. */
    method FreshName(pid: nat, now: seq<nat>, ghost d: Mods)
      returns (name: Option<Name>, tries: nat, ghost moves: seq<Move>)
      requires Shows(d) && |now| == 3 && d.clock <= now[0] <= now[1] <= now[2]
      ensures name.None? <==> forall i :: 0 <= i < 3 ==> Name(now[i], pid) in pending
      ensures tries < 3 && forall j :: 0 <= j < tries ==> Name(now[j], pid) in pending
      ensures name.Some? ==> name == Some(Name(now[tries], pid)) && name.value !in pending
      ensures Takes(d, pid, StoreStart, moves, d.(clock := now[tries]),
                    if name.None? then Done else StoreNaming(tries))
    {
      hide Takes;
      var i: nat := 0;
      moves := [];
      ghost var d' := d;
      TakesNothing(d, pid, StoreStart);
      TakesOne(d, pid, StoreStart, moves, d, StoreStart, Go(true));
      moves := moves + [Do(Go(true))];
      while true
        invariant 0 <= i < 3 && forall j :: 0 <= j < i ==> Name(now[j], pid) in pending
        invariant d' == d.(clock := d'.clock) && d'.clock <= now[i]
        invariant Takes(d, pid, StoreStart, moves, d', StoreNaming(i))
        decreases 3 - i
      {
        var when := now[i];
        TakesSleep(d, pid, StoreStart, moves, d', StoreNaming(i), when - d'.clock);
        moves := moves + [Sleep(when - d'.clock)];
        d' := d'.(clock := when);
        if Name(when, pid) !in pending {
          return Some(Name(when, pid)), i, moves;
        }
        TakesOne(d, pid, StoreStart, moves, d', StoreNaming(i), Go(true));
        moves := moves + [Do(Go(true))];
        if i == 2 {
          return None, i, moves;
        }
        i := i + 1;
      }
    }

    /** Lines 205-384 of ezmlm-store.c behind the lock. A message that loops is taken back; one that could
        not be written stays without its x bit; the request goes out only for a complete message. */
    method Store(pid: nat, now: seq<nat>, created: bool, looping: bool, removed: bool, written: bool, queued: bool,
                 ghost d: Mods)
      returns (exit: int, name: Option<Name>, ghost moves: seq<Move>, ghost d': Mods)
      requires Shows(d) && |now| == 3 && d.clock <= now[0] <= now[1] <= now[2]
      modifies this
      ensures name.None? <==> forall i :: 0 <= i < 3 ==> Name(now[i], pid) in old(pending)
      ensures name.Some? ==> name.value !in old(pending)
      ensures Takes(d, pid, StoreStart, moves, d', Done)
      ensures Shows(d') && accepted == old(accepted) && rejected == old(rejected)
      ensures name.None? || !created || (looping && removed) ==> exit != 0 && pending == old(pending)
      ensures name.Some? && created && !(looping && removed) ==>
                && pending == old(pending)[name.value := !looping && written]
                && (exit == 0 <==> !looping && written && queued)
      ensures exit == 0 ==> name.Some?
      ensures d'.requested == if exit == 0 then d.requested + {name.value} else d.requested
    {
      hide AllAllowed, Moves;
      var tries;
      name, tries, moves := FreshName(pid, now, d);
      d' := d.(clock := now[tries]);
      if name.None? {
        return 111, name, moves, d';
      }
      var n := name.value;
      ghost var start := StoreStart;
      TakesOne(d, pid, start, moves, d', StoreNaming(tries), Go(created));
      moves := moves + [Do(Go(created))];
      if !created {
        return 111, name, moves, d';
      }
      pending := pending[n := false];
      d' := Log(d'.(pending := pending), Stored(n));
      if looping {
        TakesOne(d, pid, start, moves, d', StoreWriting(n), Refuse(removed));
        moves := moves + [Do(Refuse(removed))];
        if removed {
          pending := Without(pending, n);
          d' := Log(d'.(pending := pending), Erased(n));
        }
        return 100, name, moves, d';
      }
      TakesOne(d, pid, start, moves, d', StoreWriting(n), Go(written));
      moves := moves + [Do(Go(written))];
      if !written {
        return 111, name, moves, d';
      }
      pending := pending[n := true];
      d' := d'.(pending := pending);
      TakesOne(d, pid, start, moves, d', StoreQueueing(n), Go(queued));
      moves := moves + [Do(Go(queued))];
      if !queued {
        return 111, name, moves, d';
      }
      d' := d'.(requested := d'.requested + {n});
      exit := 0;
    }

    /** Lines 230-450 of ezmlm-moderate.c behind the lock. The exit code is zero only when the moderator's
        wish is fulfilled, by this run or by an earlier one that left its stub. `effect` says whether the
        message is posted or returned, and `late` that the posting command fails all the same. */
    method Moderate(fnbase: Name, accept: bool, readable: bool, effect: bool, late: bool, stub: bool, unlink: bool,
                    ghost d: Mods, ghost pid: nat)
      returns (exit: int, ghost moves: seq<Move>, ghost d': Mods)
      requires Shows(d)
      modifies this
      ensures Takes(d, pid, ModStart(fnbase, accept), moves, d', Done) && Shows(d')
      ensures exit == 0 <==>
              if fnbase in old(pending) then readable && effect && !(accept && late)
              else if fnbase in old(accepted) then accept
              else fnbase in old(rejected) && !accept
      ensures var done := fnbase in old(pending) && readable && effect;
              && d'.log[Effect(accept, fnbase)] == d.log[Effect(accept, fnbase)] + (if done then 1 else 0)
              && d'.log[Fault(fnbase)]
                 == d.log[Fault(fnbase)] + (if done && ((accept && late) || !unlink) then 1 else 0)
      ensures var acts := fnbase in old(pending) && readable && effect && !(accept && late);
              && pending == (if acts && unlink then Without(old(pending), fnbase) else old(pending))
              && accepted == old(accepted) + (if acts && stub && accept then {fnbase} else {})
              && rejected == old(rejected) + (if acts && stub && !accept then {fnbase} else {})
    {
      hide AllAllowed, Moves, Log;
      Logged(d, Told(fnbase, Moderation.CheckFile(d, fnbase)));
      Logged(Log(d, Effect(accept, fnbase)), Fault(fnbase));
      moves, d' := [], d;
      ghost var p := ModStart(fnbase, accept);
      TakesNothing(d, pid, p);
      TakesOne(d, pid, p, moves, d, p, Go(true));
      moves := moves + [Do(Go(true))];
      p := ModChecking(fnbase, accept);
      var found := CheckFile(fnbase, d);
      if found != 1 {
        TakesOne(d, pid, ModStart(fnbase, accept), moves, d', p, Go(true));
        moves := moves + [Do(Go(true))];
        d' := Log(d, Told(fnbase, Moderation.CheckFile(d, fnbase)));
        if found == 0 {
          return 100, moves, d';
        } else if found == -1 {
          return if accept then 0 else 100, moves, d';
        } else {
          return if accept then 100 else 0, moves, d';
        }
      }
      TakesOne(d, pid, ModStart(fnbase, accept), moves, d', p, Go(readable));
      moves := moves + [Do(Go(readable))];
      if !readable {
        return 111, moves, d';
      }
      p := ModActing(fnbase, accept);
      if accept && effect && late {
        TakesOne(d, pid, ModStart(fnbase, accept), moves, d', p, PostedLate);
        moves := moves + [Do(PostedLate)];
        Logged(d, Posted(fnbase));
        d' := Log(Log(d, Posted(fnbase)), Fault(fnbase));
        return 111, moves, d';
      }
      TakesOne(d, pid, ModStart(fnbase, accept), moves, d', p, Go(effect));
      moves := moves + [Do(Go(effect))];
      if !effect {
        return 111, moves, d';
      }
      d' := Log(d, Effect(accept, fnbase));
      Logged(d, Effect(accept, fnbase));
      moves, d' := Finish(fnbase, accept, stub, unlink, d, moves, d', pid);
      exit := 0;
    }

    /** Lines 401-404 and 441-449: the stub and the unlink, whose errors are ignored. */
    method Finish(fnbase: Name, accept: bool, stub: bool, unlink: bool,
                  ghost d0: Mods, ghost before: seq<Move>, ghost d: Mods, ghost pid: nat)
      returns (ghost moves: seq<Move>, ghost d': Mods)
      requires Shows(d) && Takes(d0, pid, ModStart(fnbase, accept), before, d, ModStub(fnbase, accept))
      modifies this
      ensures Takes(d0, pid, ModStart(fnbase, accept), moves, d', Done) && Shows(d')
      ensures d'.log == if unlink then d.log else Log(d, Fault(fnbase)).log
      ensures pending == if unlink then Without(old(pending), fnbase) else old(pending)
      ensures accepted == old(accepted) + (if stub && accept then {fnbase} else {})
      ensures rejected == old(rejected) + (if stub && !accept then {fnbase} else {})
    {
      hide AllAllowed, Moves;
      d' := d;
      TakesOne(d0, pid, ModStart(fnbase, accept), before, d', ModStub(fnbase, accept), Go(stub));
      moves := before + [Do(Go(stub))];
      if stub {
        if accept {
          accepted := accepted + {fnbase};
        } else {
          rejected := rejected + {fnbase};
        }
        d' := d'.(accepted := accepted, rejected := rejected);
      }
      TakesOne(d0, pid, ModStart(fnbase, accept), moves, d', ModUnlink(fnbase, accept), Go(unlink));
      moves := moves + [Do(Go(unlink))];
      if unlink {
        pending := Without(pending, fnbase);
        d' := d'.(pending := pending);
      } else {
        d' := Log(d', Fault(fnbase));
      }
    }

    method Unlink(dir: Where, n: Name, ghost d: Mods)
      requires Shows(d)
      modifies this
      ensures Shows(Unlinked(d, dir, n))
    {
      match dir
      case InPending => pending := Without(pending, n);
      case InAccepted => accepted := accepted - {n};
      case InRejected => rejected := rejected - {n};
      case Nowhere =>
    }

    /** `dodir` on the directory's listing. A notice that fails ends the program. If none does and every
        unlink succeeds, what is left is exactly what is not too old. */
    method DoDir(dir: Where, reply: bool, older: nat, listing: seq<Name>, notice: seq<bool>, unlink: seq<bool>,
                 ghost d: Mods, ghost pid: nat)
      returns (died: bool, ghost moves: seq<Move>, ghost d': Mods)
      requires Shows(d) && |notice| == |unlink| == |listing|
      requires forall i, j :: 0 <= i < j < |listing| ==> listing[i] != listing[j]
      requires forall n :: n in listing ==> InDir(d, dir, n)
      modifies this
      ensures Takes(d, pid, CleanSweep(older, reply, dir), moves, d',
                    if died then Done else CleanSweep(older, reply, dir))
      ensures Shows(d') && (AllTrue(notice) ==> !died)
      ensures !died ==> Swept(d, d', dir, reply, older, listing, AllTrue(unlink))
    {
      hide AllAllowed, Moves, Swept, Untouched, FileDone, InDir;
      moves, d', died := [], d, false;
      ghost var start := CleanSweep(older, reply, dir);
      TakesNothing(d, pid, start);
      SweepStarts(d, dir, reply, older, listing, AllTrue(unlink));
      var i := 0;
      assert listing[..0] == [] && listing[0..] == listing;
      while i < |listing|
        invariant i <= |listing| && Shows(d') && Takes(d, pid, start, moves, d', start)
        invariant Swept(d, d', dir, reply, older, listing[..i], AllTrue(unlink))
        invariant Untouched(d, d', dir, reply, older, listing[i..])
      {
        ghost var before := d';
        UntouchedFirst(d, d', dir, reply, older, listing, i);
        if listing[i].time < older {
          died, moves, d' := OneFile(dir, reply, older, listing[i], notice[i], unlink[i], d, d', moves, pid);
          if died {
            return;
          }
        }
        NotTwice(listing, i);
        SweptMore(d, before, d', dir, reply, older, listing[..i], listing[i], listing[i + 1..], unlink[i],
                  AllTrue(unlink));
        i := i + 1;
      }
      assert listing[..i] == listing;
    }

    /** `main` of ezmlm-clean, lines 243-251, over three of its four directories, with what they list. Only the
        notice of a timed-out message can end it early. */
    method Clean(when: nat, modtime: nat, reply: bool, inPending: seq<Name>, inAccepted: seq<Name>,
                 inRejected: seq<Name>, notice: seq<bool>, unlink: seq<bool>, ghost d: Mods, ghost pid: nat)
      returns (died: bool, ghost moves: seq<Move>, ghost d': Mods)
      requires Shows(d) && |notice| == |inPending| && |unlink| == |inPending| + |inAccepted| + |inRejected|
      requires Lists(d, InPending, inPending) && Lists(d, InAccepted, inAccepted) && Lists(d, InRejected, inRejected)
      modifies this
      ensures Takes(d, pid, CleanStart(Older(when, modtime), reply), moves, d', Done) && Shows(d')
      ensures AllTrue(notice) ==> !died
      ensures !died && AllTrue(unlink) ==> Cleaned(d, d', Older(when, modtime))
      ensures !died ==> Notified(d, d', reply, Older(when, modtime))
    {
      hide Takes, Swept, InDir, Lists, Older, Step, Cleaned, Notified, Elsewhere;
      var older := Older(when, modtime);
      var a, b := |inPending|, |inPending| + |inAccepted|;
      ghost var start := CleanStart(older, reply);
      StartsSweep(d, pid, older, reply);
      ListsOnce(d, InPending, inPending);
      died, moves, d' := SweepFrom(InPending, reply, older, inPending, notice, unlink[..a], d, d, start,
                                   [Do(Go(true))], pid);
      if died {
        return;
      }
      ghost var d1 := d';
      ListsElsewhere(d, d1, InPending, InAccepted, inAccepted);
      ListsElsewhere(d, d1, InPending, InRejected, inRejected);
      moves := NextDir(d, pid, start, moves, d1, older, reply, InPending, InAccepted);
      var yes := seq(|inAccepted|, _ => true);
      died, moves, d' := SweepFrom(InAccepted, reply, older, inAccepted, yes, unlink[a..b], d, d1, start, moves, pid);
      ghost var d2 := d';
      ListsElsewhere(d1, d2, InAccepted, InRejected, inRejected);
      moves := NextDir(d, pid, start, moves, d2, older, reply, InAccepted, InRejected);
      yes := seq(|inRejected|, _ => true);
      died, moves, d' := SweepFrom(InRejected, reply, older, inRejected, yes, unlink[b..], d, d2, start, moves, pid);
      moves := LastDir(d, pid, start, moves, d', older, reply);
      AllParts(unlink, a, b);
      CleanedAll(d, d1, d2, d', reply, older, inPending, inAccepted, inRejected, AllTrue(unlink[..a]),
                 AllTrue(unlink[a..b]), AllTrue(unlink[b..]));
    }

    /** One directory, behind what was done before. */
    method SweepFrom(dir: Where, reply: bool, older: nat, listing: seq<Name>, notice: seq<bool>, unlink: seq<bool>,
                     ghost d0: Mods, ghost d: Mods, ghost start: Process, ghost before: seq<Move>, ghost pid: nat)
      returns (died: bool, ghost moves: seq<Move>, ghost d': Mods)
      requires Shows(d) && |notice| == |unlink| == |listing| && Lists(d, dir, listing)
      requires Takes(d0, pid, start, before, d, CleanSweep(older, reply, dir))
      modifies this
      ensures Takes(d0, pid, start, moves, d', if died then Done else CleanSweep(older, reply, dir)) && Shows(d')
      ensures AllTrue(notice) ==> !died
      ensures !died ==> Swept(d, d', dir, reply, older, listing, AllTrue(unlink)) && Elsewhere(d, d', dir)
    {
      hide Takes, Swept, InDir, Elsewhere;
      ListsOnce(d, dir, listing);
      died, moves, d' := DoDir(dir, reply, older, listing, notice, unlink, d, pid);
      TakesJoin(d0, pid, start, before, d, CleanSweep(older, reply, dir), moves, d',
                if died then Done else CleanSweep(older, reply, dir));
      moves := before + moves;
      if !died {
        SweptElsewhere(d, d', dir, reply, older, listing, AllTrue(unlink));
      }
    }

    /** Lines 207-218 for one file that is too old. */
    method OneFile(dir: Where, reply: bool, older: nat, name: Name, notice: bool, unlink: bool,
                   ghost d0: Mods, ghost d: Mods, ghost before: seq<Move>, ghost pid: nat)
      returns (died: bool, ghost moves: seq<Move>, ghost d': Mods)
      requires Shows(d) && InDir(d, dir, name) && name.time < older
      requires Takes(d0, pid, CleanSweep(older, reply, dir), before, d, CleanSweep(older, reply, dir))
      modifies this
      ensures Takes(d0, pid, CleanSweep(older, reply, dir), moves, d',
                    if died then Done else CleanSweep(older, reply, dir))
      ensures Shows(d') && (died <==> Due(d, dir, reply, older, name) && !notice)
      ensures if died then d' == d else FileDone(d, d', dir, reply, older, name, unlink)
    {
      hide AllAllowed, Moves, FileDone;
      ghost var start := CleanSweep(older, reply, dir);
      d', moves := d, before;
      TakesOne(d0, pid, start, moves, d', start, See(name));
      moves := moves + [Do(See(name))];
      ghost var notified := dir == InPending && reply && pending[name];
      if dir == InPending && reply && pending[name] {
        TakesOne(d0, pid, start, moves, d', CleanNotify(older, reply, name), Go(notice));
        moves := moves + [Do(Go(notice))];
        if !notice {
          return true, moves, d';
        }
        d' := Log(d', TimedOut(name));
      }
      ghost var p := CleanUnlink(older, reply, dir, name, notified);
      TakesOne(d0, pid, start, moves, d', p, Go(unlink));
      moves := moves + [Do(Go(unlink))];
      if unlink {
        Unlink(dir, name, d');
      }
      UnlinkDone(d, dir, reply, older, name, unlink);
      d' := Step(d', pid, p, Go(unlink)).0;
      died := false;
    }
  }

  lemma SweepStarts(d: Mods, dir: Where, reply: bool, older: nat, listing: seq<Name>, unlinked: bool)
    requires forall n :: n in listing ==> InDir(d, dir, n)
    ensures Swept(d, d, dir, reply, older, [], unlinked) && Untouched(d, d, dir, reply, older, listing)
  {
  }

  lemma UntouchedFirst(d: Mods, d': Mods, dir: Where, reply: bool, older: nat, listing: seq<Name>, i: nat)
    requires i < |listing| && Untouched(d, d', dir, reply, older, listing[i..])
    ensures InDir(d', dir, listing[i]) && listing[i..] == [listing[i]] + listing[i + 1..]
  {
    assert listing[i] in listing[i..] by {
      assert listing[i..][0] == listing[i];
    }
    assert UntouchedAt(d, d', dir, reply, older, listing[i]);
  }

  lemma NotTwice(listing: seq<Name>, i: nat)
    requires i < |listing| && forall j, k :: 0 <= j < k < |listing| ==> listing[j] != listing[k]
    ensures listing[i] !in listing[..i] && listing[i] !in listing[i + 1..]
    ensures listing[..i + 1] == listing[..i] + [listing[i]]
  {
  }

  /** The books of one file: a notice where it is due, and then the unlink. */
  lemma UnlinkDone(d: Mods, dir: Where, reply: bool, older: nat, name: Name, unlink: bool)
    requires InDir(d, dir, name) && name.time < older
    ensures var due := Due(d, dir, reply, older, name);
            var d1 := if due then Log(d, TimedOut(name)) else d;
            FileDone(d, CleanStep(d1, CleanUnlink(older, reply, dir, name, due), Go(unlink)).0,
                     dir, reply, older, name, unlink)
  {
    hide Log;
    var due := Due(d, dir, reply, older, name);
    var d1 := if due then Log(d, TimedOut(name)) else d;
    Logged(d, TimedOut(name));
    Logged(Unlinked(d1, dir, name), Erased(name));
    Logged(d1, Fault(name));
  }
}
