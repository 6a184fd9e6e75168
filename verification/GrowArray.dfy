/** The growable arrays of gen_allocdefs.h over the copying reallocation of alloc_re.c. Whether the
    allocator has memory is given at each call. */
module GrowArray {

  // ---- what an array goes through ----

  // A growable array, with how many elements reallocation has copied and the largest size ever asked for.
  datatype Grown<T> = Grown(there: bool, contents: seq<T>, a: nat, copied: nat, largest: nat)

  function Empty<T>(): Grown<T> {
    Grown(false, [], 0, 0, 0)
  }

  function Room(base: nat, n: nat): nat {
    base + n + n / 8
  }

  function Max(x: nat, y: nat): nat {
    if x > y then x else y
  }

  /** Whether a call for `n` elements in all succeeds. */
  predicate Granted<T>(g: Grown<T>, n: nat, memory: bool) {
    memory || (g.there && n <= g.a)
  }

  function Readied<T>(g: Grown<T>, base: nat, n: nat, memory: bool): Grown<T> {
    var m := Max(g.largest, n);
    if !g.there then Grown(memory, [], n, g.copied, m)
    else if n <= g.a || !memory then g.(largest := m)
    else g.(a := Room(base, n), copied := g.copied + g.a, largest := m)
  }

  /** What `readyplus` asks for. */
  function Plus<T>(g: Grown<T>, n: nat): nat {
    if g.there then n + |g.contents| else n
  }

  function Appended<T>(g: Grown<T>, base: nat, x: T, memory: bool): Grown<T> {
    var r := Readied(g, base, Plus(g, 1), memory);
    if Granted(g, Plus(g, 1), memory) then r.(contents := r.contents + [x]) else r
  }

  /** Reallocation has copied at most eight times the capacity, which itself is bounded by the largest
      request, for every base. */
  predicate Amortised<T>(g: Grown<T>, base: nat) {
    && (if g.there then |g.contents| <= g.a else g.contents == [] && g.copied == 0)
    && g.copied <= 8 * g.a
    && g.a <= Room(base, g.largest)
  }

  // ---- the code ----

  /** `alloc_re`: the first `m` elements move to a new block. */
  method AllocRe<T(0)>(x: array<T>, m: nat, n: nat, memory: bool) returns (ok: bool, y: array<T>)
    requires m <= x.Length && m <= n
    ensures ok == memory
    ensures ok ==> fresh(y) && y.Length == n && y[..m] == x[..m]
    ensures !ok ==> y == x
  {
    if !memory {
      return false, x;
    }
    y := new T[n];
    var i := 0;
    while i < m
      invariant i <= m && y[..i] == x[..i]
    {
      y[i] := x[i];
      i := i + 1;
    }
    ok := true;
  }

  class Array<T(0)> {
    const base: nat
    var field: array?<T>
    var len: nat
    var a: nat
    ghost var copied: nat
    ghost var largest: nat

    ghost predicate Valid()
      reads this, field
    {
      && (field == null ==> len == 0)
      && (field != null ==> len <= a == field.Length)
    }

    ghost function Now(): Grown<T>
      reads this, field
      requires Valid()
    {
      Grown(field != null, if field == null then [] else field[..len], a, copied, largest)
    }

    constructor (base: nat)
      ensures Valid() && Now() == Empty() && this.base == base
    {
      this.base := base;
      field, len, a := null, 0, 0;
      copied, largest := 0, 0;
    }

    /** The common part of `ready` and `readyplus`: room for `n` elements in an array that is there. */
    method Enlarge(n: nat, memory: bool) returns (ok: bool)
      requires Valid() && field != null
      modifies this
      ensures Valid() && field != null && (field == old(field) || fresh(field))
      ensures ok == Granted(old(Now()), n, memory) && Now() == Readied(old(Now()), base, n, memory)
      ensures ok ==> n <= a
      ensures a == if n <= old(a) || !memory then old(a) else base + n + n / 8
    {
      largest := Max(largest, n);
      var i := a;
      if n > i {
        a := base + n + n / 8;
        var done, block := AllocRe(field, i, a, memory);
        field := block;
        if done {
          assert field[..len] == field[..i][..len];
          copied := copied + i;
          return true;
        }
        a := i;
        return false;
      }
      return true;
    }

    method First(n: nat, memory: bool) returns (ok: bool)
      requires Valid() && field == null
      modifies this
      ensures Valid() && (field != null ==> fresh(field))
      ensures ok == Granted(old(Now()), n, memory) && Now() == Readied(old(Now()), base, n, memory)
      ensures ok ==> field != null && n <= a
    {
      largest := Max(largest, n);
      len := 0;
      a := n;
      if memory {
        field := new T[a];
      }
      return field != null;
    }

    method Ready(n: nat, memory: bool) returns (ok: bool)
      requires Valid()
      modifies this
      ensures Valid() && (field == old(field) || (field != null && fresh(field)))
      ensures ok == Granted(old(Now()), n, memory) && Now() == Readied(old(Now()), base, n, memory)
      ensures ok ==> field != null && n <= a
      ensures a == if old(field) == null then n else if n <= old(a) || !memory then old(a) else base + n + n / 8
    {
      if field != null {
        ok := Enlarge(n, memory);
      } else {
        ok := First(n, memory);
      }
    }

    method ReadyPlus(n: nat, memory: bool) returns (ok: bool)
      requires Valid()
      modifies this
      ensures Valid() && (field == old(field) || (field != null && fresh(field)))
      ensures ok == Granted(old(Now()), Plus(old(Now()), n), memory)
      ensures Now() == Readied(old(Now()), base, Plus(old(Now()), n), memory)
      ensures ok ==> field != null && len + n <= a
    {
      if field != null {
        ok := Enlarge(n + len, memory);
      } else {
        ok := First(n, memory);
      }
    }

    method Append(x: T, memory: bool) returns (ok: bool)
      requires Valid()
      modifies this, field
      ensures Valid() && ok == Granted(old(Now()), Plus(old(Now()), 1), memory)
      ensures Now() == Appended(old(Now()), base, x, memory)
    {
      ok := ReadyPlus(1, memory);
      if ok {
        field[len] := x;
        len := len + 1;
        assert field[..len] == field[..len - 1] + [x];
      }
    }
  }

  // ---- every run ----

  datatype Op<T> = OpReady(n: nat, memory: bool) | OpPlus(n: nat, memory: bool) | OpAppend(x: T, memory: bool)

  function Apply<T>(g: Grown<T>, base: nat, op: Op<T>): Grown<T> {
    match op
    case OpReady(n, memory) => Readied(g, base, n, memory)
    case OpPlus(n, memory) => Readied(g, base, Plus(g, n), memory)
    case OpAppend(x, memory) => Appended(g, base, x, memory)
  }

  function Run<T>(g: Grown<T>, base: nat, ops: seq<Op<T>>): Grown<T>
    decreases |ops|
  {
    if ops == [] then g else Run(Apply(g, base, ops[0]), base, ops[1..])
  }

  /** The elements whose append reported success, in order. */
  function Taken<T>(g: Grown<T>, base: nat, ops: seq<Op<T>>): seq<T>
    decreases |ops|
  {
    if ops == [] then []
    else
      (if ops[0].OpAppend? && Granted(g, Plus(g, 1), ops[0].memory) then [ops[0].x] else [])
      + Taken(Apply(g, base, ops[0]), base, ops[1..])
  }

  /** Growing by an eighth pays for the copying: moving `i` elements into room for more than `i`. */
  lemma GrowthPays(base: nat, i: nat, n: nat)
    requires n > i
    ensures 9 * i <= 8 * Room(base, n)
  {
  }

  lemma RoomGrows(base: nat, m: nat, n: nat)
    requires m <= n
    ensures Room(base, m) <= Room(base, n)
  {
  }

  lemma ApplyKeeps<T>(g: Grown<T>, base: nat, op: Op<T>)
    requires Amortised(g, base)
    ensures Amortised(Apply(g, base, op), base)
    ensures Apply(g, base, op).contents
            == g.contents + if op.OpAppend? && Granted(g, Plus(g, 1), op.memory) then [op.x] else []
  {
    var n := match op case OpReady(n, _) => n case OpPlus(n, _) => Plus(g, n) case OpAppend(_, _) => Plus(g, 1);
    if n > g.a {
      GrowthPays(base, g.a, n);
    }
    RoomGrows(base, g.largest, Max(g.largest, n));
    RoomGrows(base, n, Max(g.largest, n));
  }

  /** Over any calls in any order, with any failures: the array holds what was there and then exactly the
      elements whose append succeeded, and the copying stays within its bound. */
  lemma {:induction false} RunKeeps<T>(g: Grown<T>, base: nat, ops: seq<Op<T>>)
    requires Amortised(g, base)
    ensures Amortised(Run(g, base, ops), base)
    ensures Run(g, base, ops).contents == g.contents + Taken(g, base, ops)
    decreases |ops|
  {
    hide Amortised, Apply, Granted;
    if ops != [] {
      ApplyKeeps(g, base, ops[0]);
      RunKeeps(Apply(g, base, ops[0]), base, ops[1..]);
    }
  }

  /** All copying together is linear in the largest request. */
  lemma CopyingIsLinear<T>(base: nat, ops: seq<Op<T>>)
    ensures var g := Run(Empty<T>(), base, ops);
            g.copied <= 8 * g.a <= 8 * base + 9 * g.largest && g.contents == Taken(Empty<T>(), base, ops)
  {
    RunKeeps(Empty<T>(), base, ops);
  }

  predicate AllAppends<T>(ops: seq<Op<T>>) {
    forall i :: 0 <= i < |ops| ==> ops[i].OpAppend? && ops[i].memory
  }

  /** Appending one by one, `k` elements cost at most nine copies each, besides eight times the base. */
  lemma {:induction false} AppendingIsLinear<T>(base: nat, ops: seq<Op<T>>)
    requires AllAppends(ops)
    ensures var g := Run(Empty<T>(), base, ops); |g.contents| == |ops| && g.copied <= 8 * base + 9 * |ops|
  {
    AppendsRequest(Empty<T>(), base, ops);
    CopyingIsLinear(base, ops);
  }

  lemma {:induction false} AppendsRequest<T>(g: Grown<T>, base: nat, ops: seq<Op<T>>)
    requires AllAppends(ops) && g.largest == |g.contents| && (g.there || g.contents == [])
    ensures var r := Run(g, base, ops); r.largest == |r.contents| == |g.contents| + |ops|
    decreases |ops|
  {
    if ops != [] {
      AppendsRequest(Apply(g, base, ops[0]), base, ops[1..]);
    }
  }
}
