/** The stack of MIME boundaries of boundary-stack.c. Nesting follows section 5.1 of RFC 2046. */
module BoundaryStack {
  import opened Ascii
  import opened Options

  /** The characters of a C string before its NUL. */
  type CString = s: string | '\0' !in s

  const STRLEN_MAX := 1024

  const DETECT_LIMIT_DEFAULT := 4

  /** What `snprintf` leaves of a line in the test space. */
  const TESTSPACE := 126

  function Cropped(s: CString, n: nat): CString {
    if |s| <= n then s else s[..n]
  }

  /** `isalnum` of the C locale. */
  predicate IsAlnum(c: char) {
    '0' <= c <= '9' || 'A' <= c <= 'Z' || 'a' <= c <= 'z'
  }

  function Nhl(s: string): nat {
    if s == [] then 0 else (if IsAlnum(s[0]) then 1 else 0) + Nhl(s[1..])
  }

  const ALNUM := DIGITS + CAPITALS + SMALLS

  lemma AlnumIsListed(c: char)
    ensures IsAlnum(c) <==> c in ALNUM
  {
    DigitsListed(c);
    CapitalsListed(c);
    SmallsListed(c);
  }

  /** The places of the letters and digits of `s`. */
  function AlnumPlaces(s: string): set<int> {
    set i | 0 <= i < |s| && s[i] in ALNUM
  }

  lemma {:induction false} NhlConcat(s: string, t: string)
    ensures Nhl(s + t) == Nhl(s) + Nhl(t)
  {
    if s == [] {
      assert s + t == t;
    } else {
      assert (s + t)[1..] == s[1..] + t;
      NhlConcat(s[1..], t);
    }
  }

  lemma {:induction false} NhlCounts(s: string)
    ensures Nhl(s) == |AlnumPlaces(s)|
  {
    hide ALNUM;
    if s == [] {
      assert AlnumPlaces(s) == {};
    } else {
      var n := |s| - 1;
      NhlCounts(s[..n]);
      assert s == s[..n] + [s[n]];
      NhlConcat(s[..n], [s[n]]);
      AlnumIsListed(s[n]);
      assert Nhl([s[n]]) == if IsAlnum(s[n]) then 1 else 0;
      LastPlace(s);
    }
  }

  lemma LastPlace(s: string)
    requires s != []
    ensures var n := |s| - 1; |AlnumPlaces(s)| == |AlnumPlaces(s[..n])| + if s[n] in ALNUM then 1 else 0
  {
    hide ALNUM;
    var n := |s| - 1;
    assert AlnumPlaces(s) == AlnumPlaces(s[..n]) + if s[n] in ALNUM then {n} else {};
  }

  /** `BS_non_hyphen_length`, which counts letters and digits only. */
  method NonHyphenLength(boundary: CString) returns (count: int)
    ensures count == Nhl(boundary) == |AlnumPlaces(boundary)|
  {
    NhlCounts(boundary);
    count := 0;
    var p := 0;
    while p < |boundary|
      invariant p <= |boundary| && count + Nhl(boundary[p..]) == Nhl(boundary)
    {
      assert boundary[p..][1..] == boundary[p + 1..];
      if IsAlnum(boundary[p]) {
        count := count + 1;
      }
      p := p + 1;
    }
  }

  /** `strncmp(s, t, n) == 0`. */
  predicate SameFirst(s: CString, t: CString, n: nat) {
    n == 0 || (s == "" && t == "") || (s != "" && t != "" && s[0] == t[0] && SameFirst(s[1..], t[1..], n - 1))
  }

  lemma {:induction false} SameFirstIsPrefix(s: CString, t: CString)
    ensures SameFirst(s, t, |s|) <==> s <= t
  {
    if s != "" && t != "" {
      SameFirstIsPrefix(s[1..], t[1..]);
      assert s == [s[0]] + s[1..] && t == [t[0]] + t[1..];
    }
  }

  // ---- what the stack is for ----

  predicate Occurs(line: CString, b: CString, k: int) {
    0 <= k && k + |b| <= |line| && line[k..k + |b|] == b
  }

  /** The plain test: the same number of letters and digits, and the boundary near the start of the line; an
      empty boundary stands for the two hyphens. */
  ghost predicate Matches(line: CString, b: CString, limit: int) {
    && Nhl(b) == Nhl(line)
    && if b == "" then "--" <= line else exists k :: 0 <= k < limit && Occurs(line, b, k)
  }

  /** The plain test on what the test space holds of the line. */
  ghost predicate Seen(line: CString, b: CString, limit: int) {
    && Nhl(b) == Nhl(line)
    && if b == "" then "--" <= line else exists k :: 0 <= k < limit && k + |b| <= TESTSPACE && Occurs(line, b, k)
  }

  /** The state of the module, with the stack's boundaries from the top down. */
  datatype State = State(
    stack: seq<CString>,
    count: int,
    detectLimit: int,
    holdLimit: int,
    smallestLength: int,
    haveEmptyBoundary: bool,
    safe: CString)

  function Zeroed(): State {
    State([], 0, 0, 0, 0, false, "")
  }

  function Initialised(s: State): State {
    State([], 0, DETECT_LIMIT_DEFAULT, 0, -1, false, s.safe)
  }

  function Cleared(s: State): State {
    s.(stack := [], count := 0, smallestLength := -1)
  }

  predicate Full(s: State) {
    s.holdLimit > 0 && s.count >= s.holdLimit
  }

  function Pushed(s: State, b: CString, memory: bool): State {
    if Full(s) || !memory then s
    else
      s.(stack := [b] + s.stack,
         count := s.count + 1,
         haveEmptyBoundary := s.haveEmptyBoundary || b == "",
         smallestLength := if s.smallestLength == -1 || |b| < s.smallestLength then |b| else s.smallestLength)
  }

  function Popped(s: State): State {
    if s.stack == [] then s
    else s.(stack := s.stack[1..], count := s.count - 1, safe := Cropped(s.stack[0], STRLEN_MAX - 1))
  }

  /** The test of `BS_boundary_detect`. */
  ghost predicate Detects(haystack: CString, needle: CString, limit: int, haveEmpty: bool) {
    if needle == "" then haveEmpty && "--" <= haystack
    else exists k :: 0 <= k < limit && Occurs(haystack, needle, k)
  }

  ghost predicate Hits(s: State, line: CString, b: CString) {
    Nhl(b) == Nhl(line) && Detects(Cropped(line, TESTSPACE), b, s.detectLimit, s.haveEmptyBoundary)
  }

  /** The stack from its first hit on. */
  ghost function FromHit(s: State, stack: seq<CString>, line: CString): seq<CString> {
    if stack == [] || Hits(s, line, stack[0]) then stack else FromHit(s, stack[1..], line)
  }

  /** The comparison gets past the early returns. */
  predicate Admitted(s: State, line: Option<CString>, len: int) {
    line.Some? && s.count != 0 && s.smallestLength != -1 && len >= s.smallestLength
  }

  ghost predicate CmpHit(s: State, line: Option<CString>, len: int) {
    Admitted(s, line, len) && FromHit(s, s.stack, line.value) != []
  }

  ghost function Compared(s: State, line: Option<CString>, len: int): State {
    if CmpHit(s, line, len) then s.(stack := FromHit(s, s.stack, line.value)) else s
  }

  // ---- the module's functions ----

  /** One element of the linked stack. Its fields are set when it is pushed and never again. */
  class Node {
    const boundary: CString
    const boundaryLength: int
    const boundaryNhl: int
    const next: Node?

    constructor (boundary: CString, boundaryLength: int, boundaryNhl: int, next: Node?)
      ensures this.boundary == boundary && this.boundaryLength == boundaryLength
      ensures this.boundaryNhl == boundaryNhl && this.next == next
    {
      this.boundary := boundary;
      this.boundaryLength := boundaryLength;
      this.boundaryNhl := boundaryNhl;
      this.next := next;
    }
  }

  /** The list at `node` holds the boundaries `s` with their lengths. */
  ghost predicate Linked(node: Node?, s: seq<CString>) {
    if s == [] then node == null
    else
      && node != null && node.boundary == s[0]
      && node.boundaryLength == |s[0]| && node.boundaryNhl == Nhl(s[0])
      && Linked(node.next, s[1..])
  }

  lemma {:induction false} OneList(node: Node?, s: seq<CString>, t: seq<CString>)
    requires Linked(node, s) && Linked(node, t)
    ensures s == t
  {
    if s != [] {
      OneList(node.next, s[1..], t[1..]);
      assert s == [s[0]] + s[1..] && t == [t[0]] + t[1..];
    }
  }

  ghost function After(node: Node?, i: nat): Node? {
    if i == 0 || node == null then node else After(node.next, i - 1)
  }

  lemma {:induction false} AfterNext(node: Node?, i: nat)
    ensures After(node, i + 1) == if After(node, i) == null then null else After(node, i).next
  {
    if node != null && i > 0 {
      AfterNext(node.next, i - 1);
    }
  }

  class Globals {
    var count: int
    var detectLimit: int
    var holdLimit: int
    var smallestLength: int
    var haveEmptyBoundary: bool
    var boundarystack: Node?
    var boundarystacksafe: CString
    ghost var contents: seq<CString>

    ghost predicate Valid()
      reads this
    {
      Linked(boundarystack, contents)
    }

    ghost function Now(): State
      reads this
    {
      State(contents, count, detectLimit, holdLimit, smallestLength, haveEmptyBoundary, boundarystacksafe)
    }

    constructor ()
      ensures Valid() && Now() == Zeroed()
    {
      count, detectLimit, holdLimit, smallestLength := 0, 0, 0, 0;
      haveEmptyBoundary := false;
      boundarystack := null;
      boundarystacksafe := "";
      contents := [];
    }

    method Init()
      modifies this
      ensures Valid() && Now() == Initialised(old(Now()))
      ensures contents == [] && count == 0 && detectLimit == 4 && holdLimit == 0 && smallestLength == -1
      ensures !haveEmptyBoundary && boundarystacksafe == old(boundarystacksafe)
    {
      count := 0;
      detectLimit := DETECT_LIMIT_DEFAULT;
      holdLimit := 0;
      boundarystack := null;
      contents := [];
      smallestLength := -1;
      haveEmptyBoundary := false;
    }

    method SetHoldLimit(limit: int)
      requires Valid()
      modifies this
      ensures Valid() && Now() == old(Now()).(holdLimit := limit)
    {
      holdLimit := limit;
    }

    method SetBoundaryDetectLimit(limit: int) returns (r: int)
      requires Valid()
      modifies this
      ensures Valid() && r == detectLimit
      ensures Now() == if 0 < limit < STRLEN_MAX then old(Now()).(detectLimit := limit) else old(Now())
    {
      if limit > 0 && limit < STRLEN_MAX {
        detectLimit := limit;
      }
      return detectLimit;
    }

    method Clear()
      requires Valid()
      modifies this
      ensures Valid() && Now() == Cleared(old(Now()))
      ensures contents == [] && count == 0 && smallestLength == -1
      ensures haveEmptyBoundary == old(haveEmptyBoundary) && holdLimit == old(holdLimit)
    {
      while boundarystack != null
        invariant Valid()
        invariant Now() == old(Now()).(stack := contents)
        decreases |contents|
      {
        boundarystack := boundarystack.next;
        contents := contents[1..];
      }
      count := 0;
      smallestLength := -1;
    }

    /** `memory` says whether the allocation of the node succeeds. */
    method Push(boundary: CString, memory: bool)
      requires Valid()
      modifies this
      ensures Valid() && Now() == Pushed(old(Now()), boundary, memory)
      ensures (0 < holdLimit <= old(count) || !memory) ==> Now() == old(Now())
      ensures !(0 < holdLimit <= old(count) || !memory) ==>
                && contents == [boundary] + old(contents) && count == old(count) + 1
                && haveEmptyBoundary == (old(haveEmptyBoundary) || |boundary| == 0)
                && smallestLength == (if old(smallestLength) == -1 || |boundary| < old(smallestLength) then |boundary|
                                      else old(smallestLength))
    {
      hide AlnumPlaces, ALNUM, Nhl;
      if holdLimit > 0 && count >= holdLimit {
        return;
      }
      if memory {
        var nhl := NonHyphenLength(boundary);
        var node := new Node(boundary, |boundary|, nhl, boundarystack);
        boundarystack := node;
        contents := [boundary] + contents;
        assert contents[1..] == old(contents);
        if node.boundaryLength == 0 {
          haveEmptyBoundary := true;
        }
        count := count + 1;
        if smallestLength == -1 {
          smallestLength := node.boundaryLength;
        } else if node.boundaryLength < smallestLength {
          smallestLength := node.boundaryLength;
        }
      }
    }

    /** A stack that is empty gives what was popped last. */
    method Pop() returns (boundary: CString)
      requires Valid()
      modifies this
      ensures Valid() && Now() == Popped(old(Now()))
      ensures boundary == Now().safe
      ensures old(contents) != [] ==>
                && boundary <= old(contents)[0]
                && |boundary| == (if |old(contents)[0]| < 1024 then |old(contents)[0]| else 1023)
                && contents == old(contents)[1..] && count == old(count) - 1
      ensures old(contents) == [] ==> boundary == old(boundarystacksafe) && Now() == old(Now())
    {
      var node := boundarystack;
      if boundarystack != null {
        boundarystack := boundarystack.next;
        contents := contents[1..];
        boundarystacksafe := Cropped(node.boundary, STRLEN_MAX - 1);
        count := count - 1;
      }
      return boundarystacksafe;
    }

    method Top() returns (boundary: Option<CString>)
      requires Valid()
      ensures boundary == if contents == [] then None else Some(contents[0])
    {
      if boundarystack != null {
        return Some(boundarystack.boundary);
      } else {
        return None;
      }
    }

    method IsLongEnough(blen: int) returns (r: bool)
      ensures r <==> smallestLength != -1 && blen >= smallestLength
    {
      if smallestLength == -1 {
        return false;
      }
      if blen >= smallestLength {
        return true;
      }
      return false;
    }

    /** Zero is a hit. */
    method BoundaryDetect(haystack: CString, needle: CString, needleLength: int) returns (result: int)
      requires needleLength == |needle|
      ensures result == 0 <==> Detects(haystack, needle, detectLimit, haveEmptyBoundary)
    {
      result := 1;
      var currentStart := detectLimit;
      if haveEmptyBoundary && needleLength < 1 {
        EmptyTest(haystack);
        return if SameFirst(haystack, "--", 2) then 0 else 1;
      }
      if needleLength < 1 && !haveEmptyBoundary {
        return 1;
      }
      var start := 0;
      while currentStart > 0 && start < |haystack|
        invariant start <= |haystack| && currentStart == detectLimit - start
        invariant forall k :: 0 <= k < start ==> !Occurs(haystack, needle, k)
        decreases |haystack| - start
      {
        currentStart := currentStart - 1;
        OccursTest(haystack, needle, start);
        if SameFirst(needle, haystack[start..], needleLength) {
          return 0;
        }
        start := start + 1;
      }
    }

    /** `BS_cmp`. The nodes above the one that is hit are freed, without lowering `count`. */
    method Cmp(boundary: Option<CString>, len: int) returns (r: int, ghost freed: seq<CString>)
      requires Valid()
      modifies this
      ensures Valid() && Now() == Compared(old(Now()), boundary, len)
      ensures r == if CmpHit(old(Now()), boundary, len) then 1 else 0
      ensures freed + contents == old(contents)
    {
      hide Nhl, Hits, Cropped, After;
      freed := [];
      if boundary == None || count == 0 {
        return 0, [];
      }
      var longEnough := IsLongEnough(len);
      if !longEnough {
        return 0, [];
      }
      var nhl := NonHyphenLength(boundary.value);
      var testspace := Cropped(boundary.value, TESTSPACE);
      ghost var was, i := Now(), 0;
      var node, spin;
      node, spin, i := Search(boundary.value, testspace, nhl);
      if !spin {
        if node != boundarystack {
          freed := FreeAbove(node, i);
          boundarystack := node;
          contents := contents[i..];
        } else {
          OneList(node, contents, contents[i..]);
        }
        return 1, freed;
      } else {
        return 0, [];
      }
    }

    /** Lines 503-521: the walk to the first node that is hit. */
    method Search(boundary: CString, testspace: CString, nhl: int)
      returns (node: Node?, spin: bool, ghost i: nat)
      requires Valid() && nhl == Nhl(boundary) && testspace == Cropped(boundary, TESTSPACE)
      ensures i <= |contents| && Linked(node, contents[i..]) && node == After(boundarystack, i)
      ensures FromHit(Now(), contents, boundary) == contents[i..]
      ensures Linked(node, FromHit(Now(), contents, boundary))
      ensures spin <==> FromHit(Now(), contents, boundary) == []
    {
      hide Nhl, Detects, Cropped;
      node, spin, i := boundarystack, true, 0;
      assert contents[0..] == contents;
      while node != null && spin
        invariant i <= |contents| && Linked(node, contents[i..]) && node == After(boundarystack, i)
        invariant FromHit(Now(), contents[i..], boundary) == FromHit(Now(), contents, boundary)
        invariant !spin ==> i < |contents| && Hits(Now(), boundary, contents[i])
        decreases |contents| - i, spin
      {
        assert contents[i..][1..] == contents[i + 1..];
        AfterNext(boundarystack, i);
        if node.boundaryNhl == nhl && node.boundaryLength >= 0 {
          var result := BoundaryDetect(testspace, node.boundary, node.boundaryLength);
          if result == 0 {
            spin := false;
          }
        }
        if spin {
          node := node.next;
          i := i + 1;
        }
      }
    }

    /** Lines 541-556: frees the nodes above `node` and no other. */
    method FreeAbove(node: Node?, ghost i: nat) returns (ghost freed: seq<CString>)
      requires Valid() && i < |contents|
      requires Linked(node, contents[i..]) && node == After(boundarystack, i)
      ensures freed == contents[..i]
    {
      var nodetmp := boundarystack;
      ghost var j := 0;
      freed := [];
      while nodetmp != null && nodetmp != node
        invariant j <= i && Linked(nodetmp, contents[j..])
        invariant node == After(nodetmp, i - j) && freed == contents[..j]
        decreases i - j
      {
        var nodedel := nodetmp;
        nodetmp := nodetmp.next;
        freed := freed + [nodedel.boundary];
        assert contents[j..][1..] == contents[j + 1..];
        j := j + 1;
      }
      OneList(node, contents[i..], contents[j..]);
    }
  }

  lemma {:induction false} OccursTest(haystack: CString, needle: CString, k: nat)
    requires k <= |haystack|
    ensures SameFirst(needle, haystack[k..], |needle|) <==> Occurs(haystack, needle, k)
  {
    SameFirstIsPrefix(needle, haystack[k..]);
    if needle <= haystack[k..] {
      assert haystack[k..][..|needle|] == haystack[k..k + |needle|];
    }
    if Occurs(haystack, needle, k) {
      assert haystack[k..][..|needle|] == haystack[k..k + |needle|];
    }
  }

  lemma EmptyTest(haystack: CString)
    ensures SameFirst(haystack, "--", 2) <==> "--" <= haystack
  {
    if |haystack| >= 2 {
      assert SameFirst(haystack, "--", 2) <==> haystack[0] == '-' && SameFirst(haystack[1..], "--"[1..], 1);
      assert SameFirst(haystack[1..], "--"[1..], 1) <==> haystack[1] == '-';
    } else if |haystack| == 1 {
      assert haystack[1..] == "";
    }
  }

  /** Last in, first out: a boundary that is taken comes back, and the stack is as it was. */
  lemma PushThenPop(s: State, b: CString)
    requires !Full(s) && |b| < STRLEN_MAX
    ensures var t := Popped(Pushed(s, b, true));
            t.safe == b && t.stack == s.stack && t.count == s.count
  {
  }

  // ---- every run ----

  datatype Op =
    | OpInit
    | OpClear
    | OpPush(boundary: CString, memory: bool)
    | OpPop
    | OpCmp(line: Option<CString>, len: int)
    | OpHold(limit: int)
    | OpDetect(limit: int)

  ghost function Step(s: State, op: Op): State {
    match op
    case OpInit => Initialised(s)
    case OpClear => Cleared(s)
    case OpPush(b, memory) => Pushed(s, b, memory)
    case OpPop => Popped(s)
    case OpCmp(line, len) => Compared(s, line, len)
    case OpHold(limit) => s.(holdLimit := limit)
    case OpDetect(limit) => if 0 < limit < STRLEN_MAX then s.(detectLimit := limit) else s
  }

  ghost function Run(s: State, ops: seq<Op>): State
    decreases |ops|
  {
    if ops == [] then s else Run(Step(s, ops[0]), ops[1..])
  }

  /** The nodes that comparisons have taken off since the last start, beginning with `d`. */
  ghost function Dropped(s: State, ops: seq<Op>, d: int): int
    decreases |ops|
  {
    if ops == [] then d
    else
      var s' := Step(s, ops[0]);
      var d' := match ops[0]
        case OpInit => 0
        case OpClear => 0
        case OpCmp(_, _) => d + |s.stack| - |s'.stack|
        case _ => d;
      Dropped(s', ops[1..], d')
  }

  /** What the cached fields say of the stack. */
  ghost predicate Inv(s: State) {
    && |s.stack| <= s.count
    && 0 < s.detectLimit < STRLEN_MAX
    && -1 <= s.smallestLength
    && (s.stack != [] ==> s.smallestLength >= 0)
    && (forall b :: b in s.stack ==> s.smallestLength <= |b|)
    && ("" in s.stack ==> s.haveEmptyBoundary)
  }

  ghost predicate IsFirstHit(s: State, stack: seq<CString>, line: CString, n: int) {
    && 0 <= n <= |stack|
    && (forall j :: 0 <= j < n ==> !Hits(s, line, stack[j]))
    && (n < |stack| ==> Hits(s, line, stack[n]))
  }

  /** The length of what lies above the first hit. */
  ghost function Above(s: State, line: CString): int {
    |s.stack| - |FromHit(s, s.stack, line)|
  }

  lemma {:induction false} FromHitIsTopmost(s: State, stack: seq<CString>, line: CString)
    ensures var n := |stack| - |FromHit(s, stack, line)|;
            IsFirstHit(s, stack, line, n) && FromHit(s, stack, line) == stack[n..]
  {
    hide Hits;
    if stack != [] && !Hits(s, line, stack[0]) {
      var rest := stack[1..];
      FromHitIsTopmost(s, rest, line);
      var n := |rest| - |FromHit(s, rest, line)|;
      assert rest[n..] == stack[n + 1..];
      forall j | 0 <= j < n + 1 ensures !Hits(s, line, stack[j]) {
        if j > 0 {
          assert stack[j] == rest[j - 1];
        }
      }
    } else {
      assert stack[0..] == stack;
    }
  }

  lemma InitialisedInv(s: State)
    ensures Inv(Initialised(s))
  {
  }

  lemma StepKeepsInv(s: State, op: Op)
    requires Inv(s)
    ensures Inv(Step(s, op))
    ensures op.OpCmp? ==> |Step(s, op).stack| <= |s.stack| && Step(s, op).count == s.count
    ensures Step(s, op).count - |Step(s, op).stack|
            == (if op.OpInit? || op.OpClear? then 0
                else s.count - |s.stack| + if op.OpCmp? then |s.stack| - |Step(s, op).stack| else 0)
  {
    hide Cropped, FromHit;
    match op
    case OpCmp(line, len) =>
      if line.Some? {
        FromHitIsTopmost(s, s.stack, line.value);
      }
    case OpPush(b, memory) =>
    case _ =>
  }

  /** Every state reached after `BS_init`: the depth and what comparisons dropped add up to the count,
      so the count is never below the depth, and the cached length and flag are on the safe side. */
  lemma {:induction false} RunKeepsInv(s: State, ops: seq<Op>)
    requires Inv(s)
    ensures Inv(Run(s, ops))
    ensures Run(s, ops).count == |Run(s, ops).stack| + Dropped(s, ops, s.count - |s.stack|)
    decreases |ops|
  {
    hide Inv, Step;
    if ops != [] {
      StepKeepsInv(s, ops[0]);
      RunKeepsInv(Step(s, ops[0]), ops[1..]);
    }
  }

  /** The count keeps to the hold limit, and what comparisons dropped stays below it. */
  predicate HoldInv(s: State) {
    s.holdLimit > 0 ==> s.count <= s.holdLimit && s.count - |s.stack| < s.holdLimit
  }

  predicate TooSmall(s: State, limit: int) {
    0 < limit && (limit < s.count || limit <= s.count - |s.stack|)
  }

  /** The hold limit holds through every step but one: setting it too small for what is counted. */
  lemma HoldLimitHolds(s: State, op: Op)
    requires HoldInv(s) && Inv(s)
    ensures HoldInv(Step(s, op)) <==> !(op.OpHold? && TooSmall(s, op.limit))
  {
    hide FromHit, Cropped;
    match op
    case OpCmp(line, len) =>
      if line.Some? {
        FromHitIsTopmost(s, s.stack, line.value);
      }
    case _ =>
  }

  /** The count may pass for a stack with nodes when it has none, but an empty stack takes a boundary. */
  lemma EmptyTakesOne(s: State, b: CString)
    requires HoldInv(s) && Inv(s) && s.stack == []
    ensures Pushed(s, b, true).stack == [b]
  {
  }

  ghost predicate LimitsSetInTime(s: State, ops: seq<Op>)
    decreases |ops|
  {
    ops != [] ==>
      !(ops[0].OpHold? && TooSmall(s, ops[0].limit)) && LimitsSetInTime(Step(s, ops[0]), ops[1..])
  }

  lemma {:induction false} RunKeepsHoldLimit(s: State, ops: seq<Op>)
    requires Inv(s) && HoldInv(s) && LimitsSetInTime(s, ops)
    ensures HoldInv(Run(s, ops))
    decreases |ops|
  {
    hide Inv, Step, HoldInv;
    if ops != [] {
      StepKeepsInv(s, ops[0]);
      HoldLimitHolds(s, ops[0]);
      RunKeepsHoldLimit(Step(s, ops[0]), ops[1..]);
    }
  }

  predicate CountInv(s: State) {
    s.holdLimit > 0 ==> s.count <= s.holdLimit
  }

  /** The count alone keeps to the hold limit through every step but setting a limit below it. */
  lemma CountHolds(s: State, op: Op)
    requires CountInv(s) && Inv(s)
    ensures CountInv(Step(s, op)) <==> !(op.OpHold? && 0 < op.limit < s.count)
  {
    hide FromHit, Cropped;
  }

  ghost predicate LimitsNotBelowCount(s: State, ops: seq<Op>)
    decreases |ops|
  {
    ops != [] ==>
      !(ops[0].OpHold? && 0 < ops[0].limit < s.count) && LimitsNotBelowCount(Step(s, ops[0]), ops[1..])
  }

  lemma {:induction false} RunKeepsCount(s: State, ops: seq<Op>)
    requires Inv(s) && CountInv(s) && LimitsNotBelowCount(s, ops)
    ensures CountInv(Run(s, ops))
    decreases |ops|
  {
    hide Inv, Step, CountInv;
    if ops != [] {
      StepKeepsInv(s, ops[0]);
      CountHolds(s, ops[0]);
      RunKeepsCount(Step(s, ops[0]), ops[1..]);
    }
  }

  // ---- the early returns ----

  /** Cropping the line takes away the occurrences that end behind the test space. */
  lemma CroppedOccurs(line: CString, b: CString, k: int)
    ensures Occurs(Cropped(line, TESTSPACE), b, k) <==> Occurs(line, b, k) && k + |b| <= TESTSPACE
  {
    var t := Cropped(line, TESTSPACE);
    if 0 <= k && k + |b| <= |t| {
      assert t[k..k + |b|] == line[k..k + |b|];
    }
  }

  lemma HitsIsSeen(s: State, line: CString, b: CString)
    requires b == "" ==> s.haveEmptyBoundary
    ensures Hits(s, line, b) <==> Seen(line, b, s.detectLimit)
  {
    hide Nhl, Occurs;
    if b == "" {
      assert "--" <= Cropped(line, TESTSPACE) <==> "--" <= line;
    } else {
      forall k ensures Occurs(Cropped(line, TESTSPACE), b, k) <==> Occurs(line, b, k) && k + |b| <= TESTSPACE {
        CroppedOccurs(line, b, k);
      }
    }
  }

  lemma SeenFits(line: CString, b: CString, limit: int)
    requires Seen(line, b, limit)
    ensures |b| <= |line|
  {
    hide Nhl;
  }

  ghost predicate TopSeen(s: State, line: CString, i: nat) {
    i < |s.stack| && Seen(line, s.stack[i], s.detectLimit)
    && forall j :: 0 <= j < i ==> !Seen(line, s.stack[j], s.detectLimit)
  }

  ghost predicate TopMatch(s: State, line: CString, i: nat) {
    i < |s.stack| && Matches(line, s.stack[i], s.detectLimit)
    && forall j :: 0 <= j < i ==> !Matches(line, s.stack[j], s.detectLimit)
  }

  /** A comparison of the line with its own length is a hit by the plain test, and takes the stack to its
      topmost match. */
  ghost predicate PlainCmp(s: State, line: CString) {
    var hit := CmpHit(s, Some(line), |line|);
    && (hit <==> exists b :: b in s.stack && Matches(line, b, s.detectLimit))
    && (!hit ==> Compared(s, Some(line), |line|) == s)
    && (hit ==> exists i: nat :: TopMatch(s, line, i)
                                 && Compared(s, Some(line), |line|) == s.(stack := s.stack[i..]))
  }

  /** The same on the cropped line. */
  ghost predicate CroppedCmp(s: State, line: CString) {
    var hit := CmpHit(s, Some(line), |line|);
    && (hit <==> exists b :: b in s.stack && Seen(line, b, s.detectLimit))
    && (!hit ==> Compared(s, Some(line), |line|) == s)
    && (hit ==> exists i: nat :: TopSeen(s, line, i)
                                 && Compared(s, Some(line), |line|) == s.(stack := s.stack[i..]))
  }

  /** The early returns and the cached fields never change the answer. Comparing a line of length `len`
      is a hit exactly when some boundary on the stack passes the test on the cropped line; the stack is then
      what is left from the topmost of these on, and otherwise it stays. */
  lemma CmpIsSeen(s: State, line: CString)
    requires Inv(s)
    ensures CroppedCmp(s, line)
  {
    hide Seen, Hits, Cropped, FromHit;
    FromHitIsTopmost(s, s.stack, line);
    forall b | b in s.stack
      ensures Hits(s, line, b) <==> Seen(line, b, s.detectLimit)
      ensures Seen(line, b, s.detectLimit) ==> |b| <= |line|
    {
      HitsIsSeen(s, line, b);
      if Seen(line, b, s.detectLimit) {
        SeenFits(line, b, s.detectLimit);
      }
    }
    var n := Above(s, line);
    if n < |s.stack| {
      assert s.stack[n] in s.stack && Seen(line, s.stack[n], s.detectLimit);
      assert Admitted(s, Some(line), |line|);
      forall j | 0 <= j < n ensures !Seen(line, s.stack[j], s.detectLimit) {
        assert s.stack[j] in s.stack;
      }
      assert TopSeen(s, line, n);
    } else {
      forall b | b in s.stack ensures !Seen(line, b, s.detectLimit) {
        var j :| 0 <= j < |s.stack| && s.stack[j] == b;
        assert !Hits(s, line, s.stack[j]);
      }
    }
  }

  // ---- what cropping the line does ----

  /** An occurrence near the start of the line ends inside the test space. */
  ghost predicate EndsInTime(line: CString, b: CString, limit: int) {
    exists k :: 0 <= k < limit && k + |b| <= TESTSPACE && Occurs(line, b, k)
  }

  /** On a given line, cropping is harmless exactly if some occurrence ends in time, should there be any. */
  lemma SeenInTime(line: CString, b: CString, limit: int)
    ensures Seen(line, b, limit) <==> Matches(line, b, limit) && (b == "" || EndsInTime(line, b, limit))
    ensures (Seen(line, b, limit) <==> Matches(line, b, limit))
            <==> (b != "" && Matches(line, b, limit) ==> EndsInTime(line, b, limit))
  {
    hide Nhl, Occurs;
  }

  /** The boundaries that cropping cannot hide at a detect limit. */
  predicate Short(b: CString, limit: int) {
    b == "" || |b| + limit <= TESTSPACE + 1
  }

  /** A character that is neither a letter nor a digit, and not the first one of `b`. */
  function Filler(b: CString): (c: char)
    ensures c != '\0' && !IsAlnum(c) && (b != "" ==> c != b[0])
  {
    if b != "" && b[0] == ' ' then '\t' else ' '
  }

  function Fill(c: char, n: nat): (s: string)
    ensures |s| == n && forall i :: 0 <= i < n ==> s[i] == c
  {
    seq(n, _ => c)
  }

  lemma {:induction false} NhlOfFill(c: char, n: nat)
    requires !IsAlnum(c)
    ensures Nhl(Fill(c, n)) == 0
  {
    if n > 0 {
      assert Fill(c, n)[1..] == Fill(c, n - 1);
      NhlOfFill(c, n - 1);
    }
  }

  /** A line on which the boundary stands as late as the plain test allows, and nowhere before. */
  lemma LatestLine(b: CString, limit: int) returns (line: CString)
    requires b != "" && limit > 0
    ensures Matches(line, b, limit)
    ensures EndsInTime(line, b, limit) <==> |b| + limit <= TESTSPACE + 1
  {
    hide Nhl;
    var c := Filler(b);
    var fill := Fill(c, limit - 1);
    line := fill + b;
    NhlOfFill(c, limit - 1);
    NhlConcat(fill, b);
    assert Occurs(line, b, limit - 1);
    forall k | 0 <= k < limit - 1 ensures !Occurs(line, b, k) {
      if k + |b| <= |line| {
        assert line[k..k + |b|][0] == c;
      }
    }
  }

  /** One place later, the boundary is not found. */
  lemma TooLate(b: CString, limit: int) returns (line: CString)
    requires b != "" && limit > 0
    ensures |line| == limit + |b| && Occurs(line, b, limit) && Nhl(line) == Nhl(b) && !Matches(line, b, limit)
  {
    hide Nhl;
    var c := Filler(b);
    var fill := Fill(c, limit);
    line := fill + b;
    NhlOfFill(c, limit);
    NhlConcat(fill, b);
    forall k | 0 <= k < limit ensures !Occurs(line, b, k) {
      if k + |b| <= |line| {
        assert line[k..k + |b|][0] == c;
      }
    }
  }

  /** Cropping never changes the test of a boundary, whatever the line, exactly if the boundary and the
      detect limit together exceed the test space by one at most. The 70 characters that section 5.1.1 of
      RFC 2046 allows are safe with detect limits up to 57. */
  lemma CroppingIsHarmless(b: CString, limit: int)
    requires limit > 0
    ensures (forall line: CString :: Seen(line, b, limit) <==> Matches(line, b, limit)) <==> Short(b, limit)
    ensures |b| <= 70 && limit <= 57 ==> Short(b, limit)
  {
    hide Matches, Seen, EndsInTime;
    forall line: CString | Short(b, limit) ensures Seen(line, b, limit) <==> Matches(line, b, limit) {
      SeenInTime(line, b, limit);
      if b != "" && Matches(line, b, limit) {
        ShortEndsInTime(line, b, limit);
      }
    }
    if !Short(b, limit) {
      var line := LatestLine(b, limit);
      SeenInTime(line, b, limit);
    }
  }

  lemma ShortEndsInTime(line: CString, b: CString, limit: int)
    requires Short(b, limit) && b != "" && Matches(line, b, limit)
    ensures EndsInTime(line, b, limit)
  {
    hide Nhl, Occurs;
  }

  ghost predicate AllShort(s: State) {
    forall b :: b in s.stack ==> Short(b, s.detectLimit)
  }

  /** While only short boundaries are stacked, comparing is the plain test of the whole line: a hit exactly
      when some stacked boundary matches, and then the stack starts at the topmost match. */
  lemma CmpIsPlain(s: State, line: CString)
    requires Inv(s) && AllShort(s)
    ensures PlainCmp(s, line)
  {
    hide Matches, Seen, Compared, CmpHit;
    CmpIsSeen(s, line);
    forall b | b in s.stack ensures Seen(line, b, s.detectLimit) <==> Matches(line, b, s.detectLimit) {
      CroppingIsHarmless(b, s.detectLimit);
    }
    forall i: nat ensures TopSeen(s, line, i) <==> TopMatch(s, line, i) {
      assert forall j: nat :: j < |s.stack| ==> s.stack[j] in s.stack;
    }
  }

  /** So it is in every state that a run from `BS_init` reaches: hit, new stack and miss. */
  lemma EveryCmpIsPlain(ops: seq<Op>, line: CString)
    ensures var s := Run(Initialised(Zeroed()), ops);
            CroppedCmp(s, line) && (AllShort(s) ==> PlainCmp(s, line))
  {
    hide Matches, Seen, Compared, CmpHit, TopSeen, TopMatch;
    InitialisedInv(Zeroed());
    RunKeepsInv(Initialised(Zeroed()), ops);
    var s := Run(Initialised(Zeroed()), ops);
    CmpIsSeen(s, line);
    if AllShort(s) {
      CmpIsPlain(s, line);
    }
  }

  /** A boundary of 127 letters alone on its line matches by the plain test and is missed. */
  lemma LongBoundaryIsMissed()
    ensures var b: CString := Fill('a', 127);
            var s := Run(Initialised(Zeroed()), [OpPush(b, true)]);
            && s.stack == [b] && s.detectLimit == DETECT_LIMIT_DEFAULT
            && Matches(b, b, s.detectLimit) && !CmpHit(s, Some(b), |b|)
  {
    hide Nhl;
    var b: CString := Fill('a', 127);
    var s0 := Initialised(Zeroed());
    var s := Pushed(s0, b, true);
    RunFirst(s0, OpPush(b, true), []);
    assert [OpPush(b, true)] + [] == [OpPush(b, true)];
    RunNothing(s);
    assert Occurs(b, b, 0);
    assert !Seen(b, b, s.detectLimit);
    InitialisedInv(Zeroed());
    StepKeepsInv(s0, OpPush(b, true));
    CmpIsSeen(s, b);
  }

  /** Comparing the same line again gives the same answer and leaves the stack alone. */
  lemma CmpTwice(s: State, line: CString)
    requires Inv(s)
    ensures var s' := Compared(s, Some(line), |line|);
            && Compared(s', Some(line), |line|) == s'
            && (CmpHit(s', Some(line), |line|) <==> CmpHit(s, Some(line), |line|))
  {
    hide Detects, Nhl, Cropped;
    FromHitIsTopmost(s, s.stack, line);
    var s' := Compared(s, Some(line), |line|);
    if CmpHit(s, Some(line), |line|) {
      assert Hits(s, line, s'.stack[0]) == Hits(s', line, s'.stack[0]);
    }
  }

  // ---- delimiter lines ----

  /** A boundary of up to 124 characters behind two hyphens is recognised exactly when no letter or digit
      follows, as the closing hyphens, padding and a line break do not. */
  lemma DelimiterIsFound(b: CString, t: CString, limit: int)
    requires |b| + 2 <= TESTSPACE && 3 <= limit
    ensures Seen("--" + b + t, b, limit) <==> forall i :: 0 <= i < |t| ==> t[i] !in ALNUM
  {
    hide Nhl;
    var line: CString := "--" + b + t;
    assert line == "--" + (b + t);
    NhlConcat("--", b + t);
    NhlConcat(b, t);
    NhlOfHyphens();
    assert line[2..2 + |b|] == b;
    assert Occurs(line, b, 2);
    NoAlnum(t);
  }

  lemma NoAlnum(t: string)
    ensures Nhl(t) == 0 <==> forall i :: 0 <= i < |t| ==> t[i] !in ALNUM
  {
    hide Nhl;
    NhlCounts(t);
    if Nhl(t) == 0 {
      forall i | 0 <= i < |t| ensures t[i] !in ALNUM {
        assert t[i] in ALNUM ==> i in AlnumPlaces(t);
      }
    } else {
      var i :| i in AlnumPlaces(t);
    }
  }

  function Longer(b: CString, c: char): (line: CString)
    requires c != '\0'
    ensures |line| == |b| + 3
  {
    "--" + b + [c]
  }

  lemma LongerLineCounts(b: CString, c: char)
    requires (c in DIGITS || c in CAPITALS || c in SMALLS) && c != '\0'
    ensures Nhl(Longer(b, c)) > Nhl(b)
  {
    hide Nhl;
    assert "--" + b + [c] == "--" + (b + [c]);
    NhlConcat("--", b + [c]);
    NhlConcat(b, [c]);
    NoAlnum([c]);
    assert [c][0] in ALNUM;
  }

  /** The delimiter of another part, whose boundary has a letter or digit more, is not taken for this one's. */
  lemma LongerBoundaryIsMissed(s: State, b: CString, c: char)
    requires Inv(s) && s.stack == [b]
    requires (c in DIGITS || c in CAPITALS || c in SMALLS) && c != '\0'
    ensures !Matches(Longer(b, c), b, s.detectLimit) && !CmpHit(s, Some(Longer(b, c)), |b| + 3)
  {
    hide Nhl, CmpHit, Compared, Inv, Matches, Seen, ALNUM, Longer;
    LongerLineCounts(b, c);
    OtherCount(Longer(b, c), b, s.detectLimit);
    CmpIsSeen(s, Longer(b, c));
  }

  lemma OtherCount(line: CString, b: CString, limit: int)
    requires Nhl(line) != Nhl(b)
    ensures !Matches(line, b, limit) && !Seen(line, b, limit)
  {
    hide Nhl;
  }

  lemma NhlOfHyphens()
    ensures Nhl("--") == 0
  {
    assert "--"[1..] == "-" && "-"[1..] == "";
  }

  /** An empty boundary stands for two hyphens at the start, and no letter or digit on the line. */
  lemma EmptyBoundaryExactly(line: CString, limit: int)
    ensures Matches(line, "", limit) && Seen(line, "", limit)
            <==> |line| >= 2 && line[0] == '-' && line[1] == '-' && forall i :: 0 <= i < |line| ==> line[i] !in ALNUM
    ensures Matches(line, "", limit) <==> Seen(line, "", limit)
  {
    hide ALNUM;
    NoAlnum(line);
    assert Nhl("") == 0;
    assert "--" <= line <==> |line| >= 2 && line[0] == '-' && line[1] == '-';
  }

  /** The hyphens are not asked for: a boundary that stands alone on a line is taken for a delimiter. */
  lemma HyphensAreOptional(b: CString, limit: int)
    requires 0 < |b| <= TESTSPACE && 0 < limit
    ensures Seen(b, b, limit)
  {
    assert Occurs(b, b, 0);
  }

  // ---- the count outlives its nodes ----

  lemma LineA(s: State)
    requires s.detectLimit == 4 && s.count > 0 && s.smallestLength == 1 && s.stack == ["b", "a"]
    ensures CmpHit(s, Some("--a"), 3) && Compared(s, Some("--a"), 3).stack == ["a"]
  {
    var line: CString := "--a";
    assert Nhl("") == 0 && Nhl("a") == 1 && Nhl("-a") == 1 && Nhl(line) == 1 by {
      assert "a"[1..] == "" && "-a"[1..] == "a" && line[1..] == "-a";
    }
    assert Occurs(line, "a", 2);
    assert Hits(s, line, "a");
    forall k ensures !Occurs(line, "b", k) {
      if 0 <= k < |line| {
        assert line[k..k + 1][0] == line[k] != 'b';
      }
    }
    assert !Hits(s, line, "b");
    assert s.stack[1..] == ["a"];
    assert FromHit(s, ["a"], line) == ["a"];
  }

  lemma RunFirst(s: State, op: Op, ops: seq<Op>)
    ensures Run(s, [op] + ops) == Run(Step(s, op), ops)
  {
    assert ([op] + ops)[1..] == ops;
  }

  /** A comparison that drops a node keeps its count: here a stack that may hold two boundaries is full
      with one, although the other was dropped and one was popped. */
  lemma CountOutlivesNodes()
    ensures var s := Run(Initialised(Zeroed()),
                         [OpHold(2), OpPush("a", true), OpPush("b", true), OpCmp(Some("--a"), 3), OpPop,
                          OpPush("c", true)]);
            s.stack == ["c"] && s.holdLimit == 2 && Full(s)
  {
    hide FromHit, Seen, CmpHit, Run, Cropped;
    var o1, o2, o3, o4, o5, o6 :=
      OpHold(2), OpPush("a", true), OpPush("b", true), OpCmp(Some("--a"), 3), OpPop, OpPush("c", true);
    var s0 := Initialised(Zeroed());
    var s3 := Step(Step(Step(s0, o1), o2), o3);
    assert s3.stack == ["b", "a"];
    LineA(s3);
    var s4 := Step(s3, o4);
    assert s4.stack == ["a"] && s4.count == 2 && s4.holdLimit == 2;
    var s6 := Step(Step(s4, o5), o6);
    assert s6.stack == ["c"] && s6.count == 2 && s6.holdLimit == 2;
    RunFirst(s0, o1, [o2, o3, o4, o5, o6]);
    RunFirst(Step(s0, o1), o2, [o3, o4, o5, o6]);
    RunFirst(Step(Step(s0, o1), o2), o3, [o4, o5, o6]);
    RunFirst(s3, o4, [o5, o6]);
    RunFirst(s4, o5, [o6]);
    RunFirst(Step(s4, o5), o6, []);
    RunNothing(s6);
    assert [o1] + [o2, o3, o4, o5, o6] == [o1, o2, o3, o4, o5, o6];
    assert [o2] + [o3, o4, o5, o6] == [o2, o3, o4, o5, o6];
    assert [o3] + [o4, o5, o6] == [o3, o4, o5, o6];
    assert [o4] + [o5, o6] == [o4, o5, o6];
    assert [o5] + [o6] == [o5, o6];
    assert [o6] + [] == [o6];
  }

  lemma RunNothing(s: State)
    ensures Run(s, []) == s
  {
  }
}
