/** pldstr.c: search and replace with a limit, optional anchors and a buffer that a counting pass
    sizes in advance. */
module StrReplace {

  import opened Ascii
  import opened Options

  // ---- PLD_strstr ----

  /** `tolower` in the C locale. */
  function Lower(c: char): char {
    if 'A' <= c <= 'Z' then c + 32 as char else c
  }

  /** Exactly the capital letters are folded, and each to its small letter. */
  lemma LowerFolds(c: char, i: nat)
    ensures i < 26 ==> Lower(CAPITALS[i]) == SMALLS[i]
    ensures c !in CAPITALS ==> Lower(c) == c
  {
    CapitalsListed(c);
    if i < 26 {
      CapitalCode(i);
      SmallCode(i);
    }
  }

  function LowerAll(s: string): (t: string)
    ensures |t| == |s| && forall i :: 0 <= i < |s| ==> t[i] == Lower(s[i])
  {
    seq(|s|, i requires 0 <= i < |s| => Lower(s[i]))
  }

  function Norm(c: char, insensitive: bool): char {
    if insensitive then Lower(c) else c
  }

  predicate MatchAt(s: string, pat: string, i: nat, insensitive: bool) {
    i + |pat| <= |s| && forall k :: 0 <= k < |pat| ==> Norm(s[i + k], insensitive) == Norm(pat[k], insensitive)
  }

  /** A match is the pattern itself, or, without regard to case, a text of the same small letters. */
  lemma MatchIsEquality(s: string, pat: string, i: nat)
    ensures MatchAt(s, pat, i, false) <==> i + |pat| <= |s| && s[i..i + |pat|] == pat
    ensures MatchAt(s, pat, i, true) <==> i + |pat| <= |s| && LowerAll(s[i..i + |pat|]) == LowerAll(pat)
  {
    hide Lower;
    if i + |pat| <= |s| {
      var t := s[i..i + |pat|];
      SameElements(t, pat);
      SameElements(LowerAll(t), LowerAll(pat));
      assert forall k :: 0 <= k < |pat| ==> t[k] == s[i + k];
    }
  }

  lemma SameElements(t: string, u: string)
    requires |t| == |u|
    ensures t == u <==> forall k :: 0 <= k < |u| ==> t[k] == u[k]
  {
  }

  /** Where the pattern matches, place by place. */
  function Marks(s: string, pat: string, insensitive: bool): (m: seq<bool>)
    ensures |m| == |s| + 1
  {
    seq(|s| + 1, i requires 0 <= i <= |s| => MatchAt(s, pat, i, insensitive))
  }

  lemma MarkMeans(s: string, pat: string, insensitive: bool, i: nat)
    requires i <= |s|
    ensures Marks(s, pat, insensitive)[i] == MatchAt(s, pat, i, insensitive)
  {
  }

  /** The first marked place at `from` or behind it. */
  function NextMark(m: seq<bool>, from: nat): (r: Option<nat>)
    ensures r.Some? ==> from <= r.value < |m| && m[r.value]
    decreases |m| - from
  {
    if from >= |m| then None
    else if m[from] then Some(from)
    else NextMark(m, from + 1)
  }

  lemma {:induction false} NextMarkIsFirst(m: seq<bool>, from: nat)
    ensures var r := NextMark(m, from);
            forall i :: from <= i < (if r.Some? then r.value else |m|) ==> !m[i]
    decreases |m| - from
  {
    if from < |m| && !m[from] {
      NextMarkIsFirst(m, from + 1);
    }
  }

  /** `strstr`: the first occurrence at `from` or behind it. */
  function Strstr(hs: string, ne: string, from: nat): Option<nat>
    decreases |hs| - from
  {
    if from + |ne| > |hs| then None
    else if hs[from..from + |ne|] == ne then Some(from)
    else Strstr(hs, ne, from + 1)
  }

  lemma CopiesMatch(s: string, pat: string, i: nat, insensitive: bool)
    requires i + |pat| <= |s|
    ensures var hs := if insensitive then LowerAll(s) else s;
            var ne := if insensitive then LowerAll(pat) else pat;
            hs[i..i + |ne|] == ne <==> MatchAt(s, pat, i, insensitive)
  {
    var hs := if insensitive then LowerAll(s) else s;
    var ne := if insensitive then LowerAll(pat) else pat;
    var t := hs[i..i + |ne|];
    forall k | 0 <= k < |pat| ensures t[k] == Norm(s[i + k], insensitive) && ne[k] == Norm(pat[k], insensitive) {
    }
  }

  /** Searching lower-case copies finds the same place as comparing without case. */
  lemma {:induction false} StrstrOfCopies(s: string, pat: string, from: nat, insensitive: bool)
    ensures var hs := if insensitive then LowerAll(s) else s;
            var ne := if insensitive then LowerAll(pat) else pat;
            Strstr(hs, ne, from) == NextMark(Marks(s, pat, insensitive), from)
    decreases |s| - from
  {
    var m := Marks(s, pat, insensitive);
    if from + |pat| <= |s| {
      CopiesMatch(s, pat, from, insensitive);
      MarkMeans(s, pat, insensitive, from);
      StrstrOfCopies(s, pat, from + 1, insensitive);
    } else if NextMark(m, from).Some? {
      MarkMeans(s, pat, insensitive, NextMark(m, from).value);
    }
  }

  // ---- which occurrences are replaced ----

  datatype Request = Request(
    source: string,
    searchfor: string,
    replacewith: string,
    preexist: Option<string>,
    postexist: Option<string>,
    replacenumber: nat,
    insensitive: bool)

  /** Leftmost marked places that are at least `len` apart. */
  function Leftmost(m: seq<bool>, len: nat, from: nat): seq<nat>
    requires len > 0
    decreases |m| - from
  {
    match NextMark(m, from)
    case None => []
    case Some(p) => [p] + Leftmost(m, len, p + len)
  }

  function Occurrences(s: string, pat: string, insensitive: bool): seq<nat>
    requires pat != []
  {
    Leftmost(Marks(s, pat, insensitive), |pat|, 0)
  }

  /** Marked places, from `from` on, in order and at least `len` apart. */
  ghost predicate InOrder(m: seq<bool>, len: nat, from: nat, ps: seq<nat>) {
    && (forall i :: 0 <= i < |ps| ==> from <= ps[i] < |m| && m[ps[i]])
    && (forall i, j :: 0 <= i < j < |ps| ==> ps[i] + len <= ps[j])
  }

  lemma {:induction false} LeftmostInOrder(m: seq<bool>, len: nat, from: nat)
    requires len > 0
    ensures InOrder(m, len, from, Leftmost(m, len, from))
    decreases |m| - from
  {
    var r := NextMark(m, from);
    if r.Some? {
      LeftmostInOrder(m, len, r.value + len);
    }
  }

  /** `q` lies in one of the occurrences. */
  ghost predicate Covered(ps: seq<nat>, len: nat, q: nat) {
    exists i :: 0 <= i < |ps| && ps[i] <= q < ps[i] + len
  }

  lemma {:induction false} LeftmostCovers(m: seq<bool>, len: nat, from: nat, q: nat)
    requires len > 0 && from <= q < |m| && m[q]
    ensures Covered(Leftmost(m, len, from), len, q)
    decreases |m| - from
  {
    NextMarkIsFirst(m, from);
    var p := NextMark(m, from).value;
    var ps, rest := Leftmost(m, len, from), Leftmost(m, len, p + len);
    assert ps == [p] + rest;
    if q >= p + len {
      LeftmostCovers(m, len, p + len, q);
      var i :| 0 <= i < |rest| && rest[i] <= q < rest[i] + len;
      assert ps[i + 1] == rest[i];
    } else {
      assert ps[0] <= q < ps[0] + len;
    }
  }

  /** What a left-to-right search finds: matches in order that do not overlap, such that every match
      starts inside one of them. */
  ghost predicate IsLeftmost(s: string, pat: string, insensitive: bool, ps: seq<nat>) {
    && (forall i :: 0 <= i < |ps| ==> MatchAt(s, pat, ps[i], insensitive))
    && (forall i, j :: 0 <= i < j < |ps| ==> ps[i] + |pat| <= ps[j])
    && (forall q: nat :: MatchAt(s, pat, q, insensitive) ==> Covered(ps, |pat|, q))
  }

  lemma OccurrencesAreLeftmost(s: string, pat: string, insensitive: bool)
    requires pat != []
    ensures IsLeftmost(s, pat, insensitive, Occurrences(s, pat, insensitive))
  {
    var m := Marks(s, pat, insensitive);
    LeftmostInOrder(m, |pat|, 0);
    var ps := Leftmost(m, |pat|, 0);
    forall i | 0 <= i < |ps| ensures MatchAt(s, pat, ps[i], insensitive) {
      MarkMeans(s, pat, insensitive, ps[i]);
    }
    forall q: nat | MatchAt(s, pat, q, insensitive) ensures Covered(ps, |pat|, q) {
      MarkMeans(s, pat, insensitive, q);
      LeftmostCovers(m, |pat|, 0, q);
    }
  }

  // An anchor is absent, or wanted and found at a place, or wanted and missing.
  datatype Anchor = Absent | At(place: nat) | Missing

  function PreAnchor(r: Request): Anchor {
    if r.preexist.None? || r.preexist.value == [] then Absent
    else match NextMark(Marks(r.source, r.preexist.value, r.insensitive), 0)
         case None => Missing
         case Some(p) => At(p)
  }

  /** The last of the leftmost occurrences, which need not be the last occurrence of all. */
  function PostAnchor(r: Request): Anchor {
    if r.postexist.None? || r.postexist.value == [] then Absent
    else
      var ps := Occurrences(r.source, r.postexist.value, r.insensitive);
      if ps == [] then Missing else At(ps[|ps| - 1])
  }

  predicate Eligible(pre: Anchor, post: Anchor, p: nat) {
    && (match pre case Absent => true case At(a) => a < p case Missing => false)
    && (match post case Absent => true case At(b) => p < b case Missing => false)
  }

  /** An anchor in front: some match of it starts before `p`. */
  ghost predicate BehindPre(r: Request, p: nat) {
    r.preexist.Some? && r.preexist.value != [] ==>
      exists q: nat :: q < p && MatchAt(r.source, r.preexist.value, q, r.insensitive)
  }

  /** An anchor behind: of its matches that a search from the left finds, one starts behind `p`. */
  ghost predicate BeforePost(r: Request, p: nat) {
    r.postexist.Some? && r.postexist.value != [] ==>
      exists ps, i :: IsLeftmost(r.source, r.postexist.value, r.insensitive, ps) && 0 <= i < |ps| && p < ps[i]
  }

  /** Replaced are only occurrences behind the one anchor and before the other, as far as they are wanted. */
  ghost predicate Anchored(r: Request, p: nat) {
    BehindPre(r, p) && BeforePost(r, p)
  }

  lemma LeftmostFinds(s: string, pat: string, insensitive: bool, ps: seq<nat>, q: nat) returns (j: nat)
    requires IsLeftmost(s, pat, insensitive, ps) && MatchAt(s, pat, q, insensitive)
    ensures j < |ps| && ps[j] <= q < ps[j] + |pat|
  {
    hide MatchAt;
    assert Covered(ps, |pat|, q);
    j :| 0 <= j < |ps| && ps[j] <= q < ps[j] + |pat|;
  }

  lemma LeftmostMatches(s: string, pat: string, insensitive: bool, ps: seq<nat>, i: nat)
    requires IsLeftmost(s, pat, insensitive, ps) && i < |ps|
    ensures MatchAt(s, pat, ps[i], insensitive)
    ensures forall j :: 0 <= j < i ==> ps[j] + |pat| <= ps[i]
  {
    hide MatchAt;
  }

  lemma LeftmostAgree(s: string, pat: string, insensitive: bool, ps: seq<nat>, qs: seq<nat>, i: nat)
    requires IsLeftmost(s, pat, insensitive, ps) && IsLeftmost(s, pat, insensitive, qs)
    requires i < |ps| && i <= |qs| && ps[..i] == qs[..i]
    ensures i < |qs| && qs[i] <= ps[i]
  {
    hide IsLeftmost, MatchAt;
    LeftmostMatches(s, pat, insensitive, ps, i);
    var j := LeftmostFinds(s, pat, insensitive, qs, ps[i]);
    assert forall k :: 0 <= k < i ==> ps[..i][k] == ps[k] && qs[..i][k] == qs[k];
    if j >= i {
      LeftmostMatches(s, pat, insensitive, qs, j);
    }
  }

  lemma {:induction false} LeftmostPrefix(s: string, pat: string, insensitive: bool, ps: seq<nat>, qs: seq<nat>, n: nat)
    requires IsLeftmost(s, pat, insensitive, ps) && IsLeftmost(s, pat, insensitive, qs) && n <= |ps|
    ensures n <= |qs| && ps[..n] == qs[..n]
  {
    hide IsLeftmost;
    if n > 0 {
      var i := n - 1;
      LeftmostPrefix(s, pat, insensitive, ps, qs, i);
      LeftmostAgree(s, pat, insensitive, ps, qs, i);
      LeftmostAgree(s, pat, insensitive, qs, ps, i);
      assert ps[..n] == ps[..i] + [ps[i]] && qs[..n] == qs[..i] + [qs[i]];
    }
  }

  /** A search from the left finds one list of matches only. */
  lemma LeftmostUnique(s: string, pat: string, insensitive: bool, ps: seq<nat>)
    requires pat != [] && IsLeftmost(s, pat, insensitive, ps)
    ensures ps == Occurrences(s, pat, insensitive)
  {
    hide IsLeftmost, Occurrences;
    var qs := Occurrences(s, pat, insensitive);
    OccurrencesAreLeftmost(s, pat, insensitive);
    LeftmostPrefix(s, pat, insensitive, ps, qs, |ps|);
    LeftmostPrefix(s, pat, insensitive, qs, ps, |qs|);
    assert ps[..|ps|] == ps && qs[..|qs|] == qs;
  }

  lemma PreIsBehind(r: Request, p: nat)
    ensures BehindPre(r, p) <==> match PreAnchor(r) case Absent => true case At(a) => a < p case Missing => false
  {
    hide MatchAt;
    if r.preexist.Some? && r.preexist.value != [] {
      var m := Marks(r.source, r.preexist.value, r.insensitive);
      NextMarkIsFirst(m, 0);
      forall q: nat ensures q < |m| ==> m[q] == MatchAt(r.source, r.preexist.value, q, r.insensitive) {
        if q < |m| {
          MarkMeans(r.source, r.preexist.value, r.insensitive, q);
        }
      }
      forall q: nat ensures MatchAt(r.source, r.preexist.value, q, r.insensitive) ==> q < |m| {
        MatchFits(r.source, r.preexist.value, q, r.insensitive);
      }
    }
  }

  lemma PostIsBefore(r: Request, p: nat)
    ensures BeforePost(r, p) <==> match PostAnchor(r) case Absent => true case At(b) => p < b case Missing => false
  {
    hide MatchAt, Occurrences, IsLeftmost;
    if r.postexist.Some? && r.postexist.value != [] {
      var s, pat := r.source, r.postexist.value;
      var qs := Occurrences(s, pat, r.insensitive);
      OccurrencesAreLeftmost(s, pat, r.insensitive);
      LeftmostSorted(s, pat, r.insensitive, qs);
      if BeforePost(r, p) {
        var ps, i :| IsLeftmost(s, pat, r.insensitive, ps) && 0 <= i < |ps| && p < ps[i];
        LeftmostUnique(s, pat, r.insensitive, ps);
        LastIsLargest(qs, i);
      }
      if qs != [] && p < qs[|qs| - 1] {
        assert IsLeftmost(s, pat, r.insensitive, qs) && 0 <= |qs| - 1 < |qs|;
      }
    }
  }

  lemma LastIsLargest(qs: seq<nat>, i: nat)
    requires Increasing(qs) && i < |qs|
    ensures qs[i] <= qs[|qs| - 1]
  {
  }

  lemma EligibleIsAnchored(r: Request, p: nat)
    ensures Eligible(PreAnchor(r), PostAnchor(r), p) <==> Anchored(r, p)
  {
    hide PreAnchor, PostAnchor, BehindPre, BeforePost;
    PreIsBehind(r, p);
    PostIsBefore(r, p);
  }

  function Filter(ps: seq<nat>, pre: Anchor, post: Anchor): seq<nat> {
    if ps == [] then []
    else (if Eligible(pre, post, ps[0]) then [ps[0]] else []) + Filter(ps[1..], pre, post)
  }

  function Take(ps: seq<nat>, n: nat): seq<nat> {
    if n < |ps| then ps[..n] else ps
  }

  /** The occurrences to replace: the first `replacenumber` eligible ones, or all of them for 0. */
  function Chosen(r: Request): seq<nat>
    requires r.searchfor != []
  {
    var ps := Filter(Occurrences(r.source, r.searchfor, r.insensitive), PreAnchor(r), PostAnchor(r));
    if r.replacenumber == 0 then ps else Take(ps, r.replacenumber)
  }

  /** The text from `from` on with `len` characters at each place replaced. */
  function Splice(s: string, from: nat, places: seq<nat>, len: nat, with: string): string
    requires Places(s, from, places, len)
    decreases |places|
  {
    if places == [] then (if from <= |s| then s[from..] else "")
    else s[from..places[0]] + with + Splice(s, places[0] + len, places[1..], len, with)
  }

  predicate Places(s: string, from: nat, places: seq<nat>, len: nat)
    decreases |places|
  {
    places == [] || (from <= places[0] && places[0] + len <= |s| && Places(s, places[0] + len, places[1..], len))
  }

  /** A marked place leaves room for a match behind it. */
  ghost predicate Fits(m: seq<bool>, len: nat) {
    forall i :: 0 <= i < |m| && m[i] ==> i + len < |m|
  }

  lemma {:induction false} LeftmostArePlaces(s: string, m: seq<bool>, len: nat, from: nat)
    requires len > 0 && Fits(m, len) && |m| == |s| + 1
    ensures Places(s, from, Leftmost(m, len, from), len)
    decreases |m| - from
  {
    var ps := Leftmost(m, len, from);
    if ps != [] {
      LeftmostArePlaces(s, m, len, ps[0] + len);
      assert ps[1..] == Leftmost(m, len, ps[0] + len);
    }
  }

  lemma MarksFit(s: string, pat: string, insensitive: bool)
    ensures Fits(Marks(s, pat, insensitive), |pat|)
  {
    forall i | 0 <= i <= |s| && Marks(s, pat, insensitive)[i] ensures i + |pat| <= |s| {
      MarkMeans(s, pat, insensitive, i);
    }
  }

  lemma {:induction false} FilterPlaces(s: string, from: nat, from': nat, ps: seq<nat>, len: nat,
                                        pre: Anchor, post: Anchor)
    requires Places(s, from', ps, len) && from <= from'
    ensures Places(s, from, Filter(ps, pre, post), len)
    decreases |ps|
  {
    if ps != [] {
      if Eligible(pre, post, ps[0]) {
        FilterPlaces(s, ps[0] + len, ps[0] + len, ps[1..], len, pre, post);
        assert Filter(ps, pre, post)[1..] == Filter(ps[1..], pre, post);
      } else {
        FilterPlaces(s, from, ps[0] + len, ps[1..], len, pre, post);
        assert Filter(ps, pre, post) == Filter(ps[1..], pre, post);
      }
    }
  }

  lemma {:induction false} TakePlaces(s: string, from: nat, ps: seq<nat>, len: nat, n: nat)
    requires Places(s, from, ps, len)
    ensures Places(s, from, Take(ps, n), len)
    decreases |ps|
  {
    if n < |ps| && n > 0 {
      TakePlaces(s, ps[0] + len, ps[1..], len, n - 1);
      assert ps[..n][1..] == ps[1..][..n - 1];
    }
  }

  lemma {:induction false} FilterShorter(ps: seq<nat>, pre: Anchor, post: Anchor)
    ensures |Filter(ps, pre, post)| <= |ps|
    ensures pre == Absent && post == Absent ==> Filter(ps, pre, post) == ps
  {
    if ps != [] {
      FilterShorter(ps[1..], pre, post);
    }
  }

  lemma ChosenPlaces(r: Request)
    requires r.searchfor != []
    ensures Places(r.source, 0, Chosen(r), |r.searchfor|)
  {
    var ps := Occurrences(r.source, r.searchfor, r.insensitive);
    MarksFit(r.source, r.searchfor, r.insensitive);
    LeftmostArePlaces(r.source, Marks(r.source, r.searchfor, r.insensitive), |r.searchfor|, 0);
    FilterPlaces(r.source, 0, 0, ps, |r.searchfor|, PreAnchor(r), PostAnchor(r));
    TakePlaces(r.source, 0, Filter(ps, PreAnchor(r), PostAnchor(r)), |r.searchfor|, r.replacenumber);
  }

  lemma {:induction false} SpliceLength(s: string, from: nat, ps: seq<nat>, len: nat, with: string)
    requires Places(s, from, ps, len)
    ensures |Splice(s, from, ps, len, with)| == (if from <= |s| then |s| - from else 0) + |ps| * (|with| - len)
    ensures from <= |s| || ps == []
    decreases |ps|
  {
    if ps != [] {
      SpliceLength(s, ps[0] + len, ps[1..], len, with);
      assert |ps| * (|with| - len) == (|ps| - 1) * (|with| - len) + (|with| - len);
    }
  }

  /** The source with its chosen occurrences replaced. */
  function Replaced(r: Request): string
    requires r.searchfor != []
  {
    ChosenPlaces(r);
    Splice(r.source, 0, Chosen(r), |r.searchfor|, r.replacewith)
  }

  lemma ExactMatch(s: string, pat: string, p: nat)
    requires MatchAt(s, pat, p, false)
    ensures p + |pat| <= |s| && s[p..p + |pat|] == pat
  {
    var t := s[p..p + |pat|];
    forall k | 0 <= k < |pat| ensures t[k] == pat[k] {
      assert Norm(s[p + k], false) == Norm(pat[k], false);
    }
  }

  lemma Cut(s: string, a: nat, b: nat, c: nat)
    requires a <= b <= c <= |s|
    ensures s[a..] == s[a..b] + s[b..c] + s[c..]
  {
  }

  ghost predicate AllMatch(s: string, pat: string, ps: seq<nat>) {
    forall p :: p in ps ==> MatchAt(s, pat, p, false)
  }

  /** Replacing every match by the pattern itself changes nothing: only matches are cut out. */
  lemma {:induction false} SpliceBack(s: string, from: nat, ps: seq<nat>, pat: string)
    requires Places(s, from, ps, |pat|) && from <= |s| && AllMatch(s, pat, ps)
    ensures Splice(s, from, ps, |pat|, pat) == s[from..]
    decreases |ps|
  {
    hide MatchAt, Splice, Places, AllMatch;
    SpliceFirst(s, from, ps, |pat|, pat);
    if ps != [] {
      var p := ps[0];
      FirstMatches(s, pat, ps);
      ExactMatch(s, pat, p);
      SpliceBack(s, p + |pat|, ps[1..], pat);
      Cut(s, from, p, p + |pat|);
    }
  }

  lemma FirstMatches(s: string, pat: string, ps: seq<nat>)
    requires ps != [] && AllMatch(s, pat, ps)
    ensures MatchAt(s, pat, ps[0], false) && AllMatch(s, pat, ps[1..])
  {
    hide MatchAt;
  }

  /** The first place, and what is behind it. */
  lemma SpliceFirst(s: string, from: nat, ps: seq<nat>, len: nat, with: string)
    requires Places(s, from, ps, len)
    ensures ps == [] ==> Splice(s, from, ps, len, with) == if from <= |s| then s[from..] else ""
    ensures ps != [] ==>
              && from <= ps[0] && ps[0] + len <= |s| && Places(s, ps[0] + len, ps[1..], len)
              && Splice(s, from, ps, len, with)
                 == s[from..ps[0]] + with + Splice(s, ps[0] + len, ps[1..], len, with)
  {
  }

  lemma {:induction false} FilterSelects(ps: seq<nat>, pre: Anchor, post: Anchor)
    ensures forall p :: p in Filter(ps, pre, post) <==> p in ps && Eligible(pre, post, p)
  {
    if ps != [] {
      FilterSelects(ps[1..], pre, post);
      assert ps == [ps[0]] + ps[1..];
    }
  }

  /** Only matches are cut out: with the search string as its own replacement the text is unchanged. */
  lemma ReplacedBySelf(r: Request)
    requires r.searchfor != [] && !r.insensitive && r.replacewith == r.searchfor
    ensures Replaced(r) == r.source
  {
    hide Eligible, Marks, Leftmost, MatchAt, PreAnchor, PostAnchor;
    var all := Occurrences(r.source, r.searchfor, false);
    OccurrencesAreLeftmost(r.source, r.searchfor, false);
    FilterSelects(all, PreAnchor(r), PostAnchor(r));
    ChosenPlaces(r);
    forall p | p in Chosen(r) ensures MatchAt(r.source, r.searchfor, p, false) {
      assert p in all;
    }
    SpliceBack(r.source, 0, Chosen(r), r.searchfor);
  }

  // ---- the result, without saying how it is found ----

  ghost predicate Increasing(ps: seq<nat>) {
    forall i, j :: 0 <= i < j < |ps| ==> ps[i] < ps[j]
  }

  /** `ps` are the first `replacenumber` anchored places of `all`, or for 0 all of them. */
  ghost predicate FirstAnchored(r: Request, all: seq<nat>, ps: seq<nat>) {
    && Increasing(ps)
    && (forall p :: p in ps ==> p in all && Anchored(r, p))
    && (r.replacenumber > 0 ==> |ps| <= r.replacenumber)
    && forall p :: p in all && p !in ps && Anchored(r, p) ==>
         r.replacenumber == |ps| > 0 && forall q :: q in ps ==> q < p
  }

  ghost predicate IsChosen(r: Request, ps: seq<nat>) {
    exists all :: IsLeftmost(r.source, r.searchfor, r.insensitive, all) && FirstAnchored(r, all, ps)
  }

  predicate HoldsAt(out: string, at: int, text: string) {
    0 <= at && at + |text| <= |out| && out[at..at + |text|] == text
  }

  /** Where the text between the places `i - 1` and `i` starts and ends in the source. */
  function GapStart(from: nat, ps: seq<nat>, len: nat, i: nat): nat
    requires i <= |ps|
  {
    if i == 0 then from else ps[i - 1] + len
  }

  function GapEnd(s: string, ps: seq<nat>, i: nat): nat
    requires i <= |ps|
  {
    if i == |ps| then |s| else ps[i]
  }

  /** `out` is the source from `from` on, with the text `with` for the `len` characters at each place: the
      replacements and what is between them stand where the replacements before them have moved them. */
  ghost predicate Replaces(s: string, from: nat, ps: seq<nat>, len: nat, with: string, out: string) {
    var diff := |with| - len;
    && |out| == |s| - from + |ps| * diff
    && (forall i :: 0 <= i < |ps| ==> HoldsAt(out, ps[i] - from + i * diff, with))
    && forall i :: 0 <= i <= |ps| ==>
         && from <= GapStart(from, ps, len, i) <= GapEnd(s, ps, i) <= |s|
         && HoldsAt(out, GapStart(from, ps, len, i) - from + i * diff, s[GapStart(from, ps, len, i)..GapEnd(s, ps, i)])
  }

  lemma HoldsBehind(head: string, out: string, at: int, text: string)
    requires HoldsAt(out, at, text)
    ensures HoldsAt(head + out, |head| + at, text)
  {
    assert (head + out)[|head| + at..|head| + at + |text|] == out[at..at + |text|];
  }

  lemma OneMore(i: int, diff: int)
    ensures i * diff == (i - 1) * diff + diff
  {
  }

  lemma {:induction false} SpliceReplaces(s: string, from: nat, ps: seq<nat>, len: nat, with: string)
    requires Places(s, from, ps, len) && from <= |s|
    ensures Replaces(s, from, ps, len, with, Splice(s, from, ps, len, with))
    decreases |ps|
  {
    hide Splice, Places, HoldsAt;
    SpliceFirst(s, from, ps, len, with);
    var out := Splice(s, from, ps, len, with);
    if ps == [] {
      WholeTail(s, from);
      assert out == s[from..] && 0 * (|with| - len) == 0;
    } else {
      var p, rest := ps[0], ps[1..];
      SpliceReplaces(s, p + len, rest, len, with);
      var tail := Splice(s, p + len, rest, len, with);
      ReplacesMore(s, from, p, rest, len, with, tail);
      assert [p] + rest == ps && out == s[from..p] + with + tail;
    }
  }

  lemma WholeTail(s: string, from: nat)
    requires from <= |s|
    ensures HoldsAt(s[from..], 0, s[from..|s|])
  {
    assert s[from..] == s[from..|s|] && s[from..][0..|s| - from] == s[from..|s|];
  }

  lemma Fronts(a: string, with: string, tail: string)
    ensures HoldsAt(a + with + tail, 0, a) && HoldsAt(a + with + tail, |a|, with)
  {
    var out := a + with + tail;
    assert out[0..|a|] == a && out[|a|..|a| + |with|] == with;
  }

  lemma ReplacesMore(s: string, from: nat, p: nat, rest: seq<nat>, len: nat, with: string, tail: string)
    requires from <= p && p + len <= |s| && Replaces(s, p + len, rest, len, with, tail)
    ensures Replaces(s, from, [p] + rest, len, with, s[from..p] + with + tail)
  {
    hide HoldsAt, Replaces;
    var ps, diff, head := [p] + rest, |with| - len, s[from..p] + with;
    var out := head + tail;
    Fronts(s[from..p], with, tail);
    ReplacesSize(s, p + len, rest, len, with, tail);
    OneMore(|ps|, diff);
    forall i | 0 <= i < |ps| ensures HoldsAt(out, ps[i] - from + i * diff, with) {
      OneMore(i, diff);
      if i > 0 {
        ReplacesPlace(s, p + len, rest, len, with, tail, i - 1);
        HoldsBehind(head, tail, rest[i - 1] - (p + len) + (i - 1) * diff, with);
      }
    }
    forall i | 0 <= i <= |ps|
      ensures from <= GapStart(from, ps, len, i) <= GapEnd(s, ps, i) <= |s|
      ensures HoldsAt(out, GapStart(from, ps, len, i) - from + i * diff,
                      s[GapStart(from, ps, len, i)..GapEnd(s, ps, i)])
    {
      OneMore(i, diff);
      if i > 0 {
        ReplacesGap(s, p + len, rest, len, with, tail, i - 1);
        var a, b := GapStart(p + len, rest, len, i - 1), GapEnd(s, rest, i - 1);
        assert GapStart(from, ps, len, i) == a && GapEnd(s, ps, i) == b;
        HoldsBehind(head, tail, a - (p + len) + (i - 1) * diff, s[a..b]);
      }
    }
    ReplacesAll(s, from, ps, len, with, out);
  }

  // The parts of `Replaces`, one by one.

  lemma ReplacesSize(s: string, from: nat, ps: seq<nat>, len: nat, with: string, out: string)
    requires Replaces(s, from, ps, len, with, out)
    ensures |out| == |s| - from + |ps| * (|with| - len)
  {
  }

  lemma ReplacesPlace(s: string, from: nat, ps: seq<nat>, len: nat, with: string, out: string, i: nat)
    requires Replaces(s, from, ps, len, with, out) && i < |ps|
    ensures HoldsAt(out, ps[i] - from + i * (|with| - len), with)
  {
    hide HoldsAt;
  }

  lemma ReplacesGap(s: string, from: nat, ps: seq<nat>, len: nat, with: string, out: string, i: nat)
    requires Replaces(s, from, ps, len, with, out) && i <= |ps|
    ensures from <= GapStart(from, ps, len, i) <= GapEnd(s, ps, i) <= |s|
    ensures HoldsAt(out, GapStart(from, ps, len, i) - from + i * (|with| - len),
                    s[GapStart(from, ps, len, i)..GapEnd(s, ps, i)])
  {
    hide HoldsAt;
  }

  lemma ReplacesAll(s: string, from: nat, ps: seq<nat>, len: nat, with: string, out: string)
    requires |out| == |s| - from + |ps| * (|with| - len)
    requires forall i :: 0 <= i < |ps| ==> HoldsAt(out, ps[i] - from + i * (|with| - len), with)
    requires forall i :: 0 <= i <= |ps| ==>
               && from <= GapStart(from, ps, len, i) <= GapEnd(s, ps, i) <= |s|
               && HoldsAt(out, GapStart(from, ps, len, i) - from + i * (|with| - len),
                          s[GapStart(from, ps, len, i)..GapEnd(s, ps, i)])
    ensures Replaces(s, from, ps, len, with, out)
  {
    hide HoldsAt;
  }

  lemma {:induction false} FilterSorted(ps: seq<nat>, pre: Anchor, post: Anchor)
    requires Increasing(ps)
    ensures Increasing(Filter(ps, pre, post))
  {
    hide Eligible;
    if ps != [] {
      FilterSorted(ps[1..], pre, post);
      var f := Filter(ps[1..], pre, post);
      FilterSelects(ps[1..], pre, post);
      forall k | 0 <= k < |f| ensures ps[0] < f[k] {
        assert f[k] in ps[1..];
        var j :| 0 <= j < |ps| - 1 && ps[1..][j] == f[k];
        assert ps[j + 1] == f[k];
      }
    }
  }

  /** What `Take` leaves behind is behind all that it takes. */
  ghost predicate TakenFirst(f: seq<nat>, n: nat, t: seq<nat>) {
    && Increasing(t) && |t| <= n
    && (forall p :: p in t ==> p in f)
    && forall p :: p in f && p !in t ==> |t| == n && forall q :: q in t ==> q < p
  }

  lemma TakeFirst(f: seq<nat>, n: nat)
    requires Increasing(f)
    ensures TakenFirst(f, n, Take(f, n))
  {
    var t := Take(f, n);
    assert forall i :: 0 <= i < |t| ==> f[i] == t[i] && t[i] in t;
    forall p | p in f && p !in t ensures |t| == n && forall q :: q in t ==> q < p {
      var k :| 0 <= k < |f| && f[k] == p;
      assert k >= |t|;
    }
  }

  lemma ChosenIsFirst(r: Request)
    requires r.searchfor != []
    ensures IsChosen(r, Chosen(r))
  {
    hide Anchored, Eligible, PreAnchor, PostAnchor, Occurrences, Filter, IsLeftmost, Take;
    var all := Occurrences(r.source, r.searchfor, r.insensitive);
    OccurrencesAreLeftmost(r.source, r.searchfor, r.insensitive);
    LeftmostSorted(r.source, r.searchfor, r.insensitive, all);
    var pre, post := PreAnchor(r), PostAnchor(r);
    var f := Filter(all, pre, post);
    FilterSorted(all, pre, post);
    FilterSelects(all, pre, post);
    forall p: nat ensures Anchored(r, p) <==> Eligible(pre, post, p) {
      EligibleIsAnchored(r, p);
    }
    TakeFirst(f, r.replacenumber);
    assert FirstAnchored(r, all, Chosen(r));
  }

  lemma LeftmostSorted(s: string, pat: string, insensitive: bool, ps: seq<nat>)
    requires pat != [] && IsLeftmost(s, pat, insensitive, ps)
    ensures Increasing(ps)
  {
    hide MatchAt;
  }

  /** What was asked for: the first `replacenumber` occurrences that a search from the left finds and that are
      anchored are replaced, each as it stands, and nothing else is touched. */
  ghost predicate WellReplaced(r: Request, out: string) {
    exists ps :: IsChosen(r, ps) && Replaces(r.source, 0, ps, |r.searchfor|, r.replacewith, out)
  }

  lemma ReplacedWell(r: Request)
    requires r.searchfor != []
    ensures WellReplaced(r, Replaced(r))
  {
    hide IsChosen, Replaces;
    ChosenPlaces(r);
    ChosenIsFirst(r);
    SpliceReplaces(r.source, 0, Chosen(r), |r.searchfor|, r.replacewith);
  }

  // ---- a character-by-character reference ----

  /** Replacing as one would explain it: walk from left to right; at a match, replace it if it is
      eligible and the budget allows and step over it; otherwise take one character. A negative
      budget is no limit. */
  ghost function Rewrite(r: Request, from: nat, budget: int): string
    requires r.searchfor != [] && from <= |r.source|
    decreases |r.source| - from
  {
    if from == |r.source| then ""
    else if MatchAt(r.source, r.searchfor, from, r.insensitive) then
      if budget != 0 && Anchored(r, from)
      then r.replacewith + Rewrite(r, from + |r.searchfor|, budget - 1)
      else r.source[from..from + |r.searchfor|] + Rewrite(r, from + |r.searchfor|, budget)
    else [r.source[from]] + Rewrite(r, from + 1, budget)
  }

  function TakeBudget(ps: seq<nat>, budget: int): seq<nat> {
    if budget < 0 then ps else Take(ps, budget)
  }

  lemma SpliceHead(s: string, from: nat, p: nat, ps: seq<nat>, len: nat, with: string)
    requires from <= p && p + len <= |s| && Places(s, p + len, ps, len)
    ensures Places(s, from, [p] + ps, len)
    ensures Splice(s, from, [p] + ps, len, with) == s[from..p] + with + Splice(s, p + len, ps, len, with)
  {
    assert ([p] + ps)[1..] == ps;
  }

  lemma SpliceLater(s: string, from: nat, later: nat, ps: seq<nat>, len: nat, with: string)
    requires from <= later <= |s| && Places(s, later, ps, len)
    ensures Places(s, from, ps, len)
    ensures Splice(s, from, ps, len, with) == s[from..later] + Splice(s, later, ps, len, with)
  {
    if ps != [] {
      var tail := Splice(s, ps[0] + len, ps[1..], len, with);
      assert s[from..ps[0]] == s[from..later] + s[later..ps[0]];
      assert s[from..later] + (s[later..ps[0]] + with + tail) == s[from..later] + s[later..ps[0]] + with + tail;
    } else {
      assert s[from..] == s[from..later] + s[later..];
    }
  }

  lemma LeftmostStep(m: seq<bool>, len: nat, from: nat)
    requires len > 0 && from < |m|
    ensures Leftmost(m, len, from)
            == if m[from] then [from] + Leftmost(m, len, from + len) else Leftmost(m, len, from + 1)
  {
  }

  /** The eligible places still to come, within the budget. */
  function ToCome(r: Request, from: nat, budget: int): seq<nat>
    requires r.searchfor != []
  {
    var ps := Leftmost(Marks(r.source, r.searchfor, r.insensitive), |r.searchfor|, from);
    TakeBudget(Filter(ps, PreAnchor(r), PostAnchor(r)), budget)
  }

  lemma ToComePlaces(r: Request, from: nat, budget: int)
    requires r.searchfor != []
    ensures Places(r.source, from, ToCome(r, from, budget), |r.searchfor|)
  {
    hide Eligible, Marks, PreAnchor, PostAnchor, Leftmost, Filter, Places;
    var m := Marks(r.source, r.searchfor, r.insensitive);
    var ps := Leftmost(m, |r.searchfor|, from);
    MarksFit(r.source, r.searchfor, r.insensitive);
    LeftmostArePlaces(r.source, m, |r.searchfor|, from);
    FilterPlaces(r.source, from, from, ps, |r.searchfor|, PreAnchor(r), PostAnchor(r));
    var limit := if budget < 0 then 0 else budget;
    TakePlaces(r.source, from, Filter(ps, PreAnchor(r), PostAnchor(r)), |r.searchfor|, limit);
  }

  lemma ToComeStep(r: Request, from: nat, budget: int)
    requires r.searchfor != [] && from < |r.source|
    ensures ToCome(r, from, budget)
            == if MatchAt(r.source, r.searchfor, from, r.insensitive) then
                 if budget != 0 && Eligible(PreAnchor(r), PostAnchor(r), from)
                 then [from] + ToCome(r, from + |r.searchfor|, budget - 1)
                 else ToCome(r, from + |r.searchfor|, budget)
               else ToCome(r, from + 1, budget)
  {
    hide Eligible, PreAnchor, PostAnchor, Leftmost, Marks, MatchAt, Filter, TakeBudget;
    var m := Marks(r.source, r.searchfor, r.insensitive);
    MarkMeans(r.source, r.searchfor, r.insensitive, from);
    LeftmostStep(m, |r.searchfor|, from);
    if m[from] {
      var rest := Leftmost(m, |r.searchfor|, from + |r.searchfor|);
      FilterHead(from, rest, PreAnchor(r), PostAnchor(r));
      var kept := Filter(rest, PreAnchor(r), PostAnchor(r));
      TakeHead(from, kept, budget);
    }
  }

  lemma FilterHead(p: nat, ps: seq<nat>, pre: Anchor, post: Anchor)
    ensures Filter([p] + ps, pre, post)
            == if Eligible(pre, post, p) then [p] + Filter(ps, pre, post) else Filter(ps, pre, post)
  {
    assert ([p] + ps)[1..] == ps;
  }

  lemma TakeHead(p: nat, ps: seq<nat>, budget: int)
    ensures TakeBudget([p] + ps, budget) == if budget == 0 then TakeBudget(ps, 0) else [p] + TakeBudget(ps, budget - 1)
  {
  }

  lemma {:induction false} SpliceIsRewrite(r: Request, from: nat, budget: int)
    requires r.searchfor != [] && from <= |r.source|
    ensures Places(r.source, from, ToCome(r, from, budget), |r.searchfor|)
    ensures Splice(r.source, from, ToCome(r, from, budget), |r.searchfor|, r.replacewith) == Rewrite(r, from, budget)
    decreases |r.source| - from
  {
    hide Eligible, Anchored, PreAnchor, PostAnchor, ToCome, Places, MatchAt, Splice;
    var s, len := r.source, |r.searchfor|;
    EligibleIsAnchored(r, from);
    ToComePlaces(r, from, budget);
    if from == |s| {
      AtTheEnd(r, budget);
    } else {
      ToComeStep(r, from, budget);
      MatchFits(s, r.searchfor, from, r.insensitive);
      if !MatchAt(s, r.searchfor, from, r.insensitive) {
        SpliceIsRewrite(r, from + 1, budget);
        SpliceLater(s, from, from + 1, ToCome(r, from + 1, budget), len, r.replacewith);
        assert s[from..from + 1] == [s[from]];
      } else if budget != 0 && Eligible(PreAnchor(r), PostAnchor(r), from) {
        SpliceIsRewrite(r, from + len, budget - 1);
        SpliceHead(s, from, from, ToCome(r, from + len, budget - 1), len, r.replacewith);
        assert s[from..from] + r.replacewith == r.replacewith;
      } else {
        SpliceIsRewrite(r, from + len, budget);
        SpliceLater(s, from, from + len, ToCome(r, from + len, budget), len, r.replacewith);
      }
    }
  }

  lemma MatchFits(s: string, pat: string, i: nat, insensitive: bool)
    ensures MatchAt(s, pat, i, insensitive) ==> i + |pat| <= |s|
  {
  }

  lemma AtTheEnd(r: Request, budget: int)
    requires r.searchfor != []
    ensures ToCome(r, |r.source|, budget) == []
    ensures Splice(r.source, |r.source|, [], |r.searchfor|, r.replacewith) == ""
  {
    var m := Marks(r.source, r.searchfor, r.insensitive);
    MarkMeans(r.source, r.searchfor, r.insensitive, |r.source|);
    assert NextMark(m, |r.source|).None?;
  }

  /** The places that the program chooses give the text that the left-to-right walk gives. */
  lemma ReplacedIsRewrite(r: Request)
    requires r.searchfor != []
    ensures Replaced(r) == Rewrite(r, 0, if r.replacenumber == 0 then -1 else r.replacenumber)
  {
    ChosenPlaces(r);
    SpliceIsRewrite(r, 0, if r.replacenumber == 0 then -1 else r.replacenumber);
  }

  // ---- the program ----

  /** `PLD_strstr` on `source + from`. */
  method PldStrstr(haystack: string, from: nat, needle: string, insensitive: bool) returns (r: Option<nat>)
    requires from <= |haystack|
    ensures r == NextMark(Marks(haystack, needle, insensitive), from)
    ensures r.Some? ==> from <= r.value && r.value + |needle| <= |haystack|
  {
    var hs := if insensitive then LowerAll(haystack) else haystack;
    var ne := if insensitive then LowerAll(needle) else needle;
    r := Strstr(hs, ne, from);
    StrstrOfCopies(haystack, needle, from, insensitive);
    MarksFit(haystack, needle, insensitive);
  }

  /** Lines 446-463: the last of the leftmost occurrences. */
  method LastOccurrence(s: string, pat: string, insensitive: bool) returns (last: Option<nat>)
    requires pat != []
    ensures var ps := Occurrences(s, pat, insensitive);
            last == if ps == [] then None else Some(ps[|ps| - 1])
  {
    hide Marks, MatchAt;
    last := None;
    var p := 0;
    ghost var m := Marks(s, pat, insensitive);
    ghost var done: seq<nat> := [];
    while true
      invariant p <= |s|
      invariant Leftmost(m, |pat|, 0) == done + Leftmost(m, |pat|, p)
      invariant last == if done == [] then None else Some(done[|done| - 1])
      decreases |s| - p
    {
      var q := PldStrstr(s, p, pat, insensitive);
      if q.None? {
        break;
      }
      last := q;
      done := done + [q.value];
      p := q.value + |pat|;
    }
  }

  /** Lines 472-488: how many leftmost occurrences there are. */
  method CountOccurrences(s: string, pat: string, insensitive: bool) returns (count: nat)
    requires pat != []
    ensures count == |Occurrences(s, pat, insensitive)|
  {
    hide Marks, MatchAt;
    count := 0;
    var p := 0;
    ghost var m := Marks(s, pat, insensitive);
    var q := PldStrstr(s, p, pat, insensitive);
    while q.Some?
      invariant p <= |s| && q == NextMark(m, p) && (q.Some? ==> q.value + |pat| <= |s|)
      invariant count + |Leftmost(m, |pat|, p)| == |Leftmost(m, |pat|, 0)|
      decreases |s| - p
    {
      count := count + 1;
      p := q.value + |pat|;
      q := PldStrstr(s, p, pat, insensitive);
    }
  }

  function EligibleFrom(r: Request, from: nat, pre: Anchor, post: Anchor): seq<nat>
    requires r.searchfor != []
  {
    Filter(Leftmost(Marks(r.source, r.searchfor, r.insensitive), |r.searchfor|, from), pre, post)
  }

  /** Behind the first eligible place come those that a search from its end would find. */
  ghost predicate HasTail(m: seq<bool>, len: nat, from: nat, pre: Anchor, post: Anchor, ps: seq<nat>)
    requires len > 0
  {
    ps != [] ==> from <= ps[0] < |m| && m[ps[0]] && ps[1..] == Filter(Leftmost(m, len, ps[0] + len), pre, post)
  }

  lemma {:induction false} FilteredTail(m: seq<bool>, len: nat, from: nat, pre: Anchor, post: Anchor)
    requires len > 0
    ensures HasTail(m, len, from, pre, post, Filter(Leftmost(m, len, from), pre, post))
    decreases |m| - from
  {
    hide Eligible, NextMark, Leftmost, Filter;
    var all := Leftmost(m, len, from);
    LeftmostFirst(m, len, from);
    if all != [] {
      var rest := Leftmost(m, len, all[0] + len);
      FilteredTail(m, len, all[0] + len, pre, post);
      FilterHead(all[0], rest, pre, post);
      assert Eligible(pre, post, all[0]) ==> ([all[0]] + Filter(rest, pre, post))[1..] == Filter(rest, pre, post);
    } else {
      FilterNothing(pre, post);
    }
  }

  lemma LeftmostFirst(m: seq<bool>, len: nat, from: nat)
    requires len > 0
    ensures var all := Leftmost(m, len, from);
            all != [] ==> from <= all[0] < |m| && m[all[0]] && all == [all[0]] + Leftmost(m, len, all[0] + len)
  {
    hide NextMark;
  }

  lemma FilterNothing(pre: Anchor, post: Anchor)
    ensures Filter([], pre, post) == []
  {
  }

  lemma EligibleTail(r: Request, from: nat, pre: Anchor, post: Anchor)
    requires r.searchfor != []
    ensures var ps := EligibleFrom(r, from, pre, post);
            ps != [] ==> from <= ps[0] && ps[0] + |r.searchfor| <= |r.source|
                         && ps[1..] == EligibleFrom(r, ps[0] + |r.searchfor|, pre, post)
  {
    hide Eligible, Leftmost, Filter, Marks, NextMark;
    var m := Marks(r.source, r.searchfor, r.insensitive);
    FilteredTail(m, |r.searchfor|, from, pre, post);
    MarksFit(r.source, r.searchfor, r.insensitive);
  }

  function First(ps: seq<nat>): Option<nat> {
    if ps == [] then None else Some(ps[0])
  }

  /** Lines 509-541 and 617-651: the first eligible occurrence at `from` or behind it. */
  method NextSegmentEnd(r: Request, from: nat, pre: Anchor, post: Anchor) returns (end: Option<nat>)
    requires r.searchfor != [] && from <= |r.source|
    ensures end == First(EligibleFrom(r, from, pre, post))
    ensures end.Some? ==> from <= end.value && end.value + |r.searchfor| <= |r.source|
  {
    hide Marks, MatchAt;
    end := PldStrstr(r.source, from, r.searchfor, r.insensitive);
    var ok := false;
    ghost var at := from;
    ghost var m := Marks(r.source, r.searchfor, r.insensitive);
    while end.Some? && !ok && (pre != Absent || post != Absent)
      invariant from <= at <= |r.source| && end == NextMark(m, at)
      invariant end.Some? ==> end.value + |r.searchfor| <= |r.source|
      invariant EligibleFrom(r, from, pre, post) == Filter(Leftmost(m, |r.searchfor|, at), pre, post)
      invariant ok ==> end.Some? && Eligible(pre, post, end.value)
      decreases |r.source| - at, !ok
    {
      if !Eligible(pre, post, end.value) {
        at := end.value + |r.searchfor|;
        end := PldStrstr(r.source, end.value + |r.searchfor|, r.searchfor, r.insensitive);
      } else {
        ok := true;
      }
    }
  }

  /** A bounded copy: lines 555-562 and 569-575. */
  method CopyInto(buffer: array<char>, newP: nat, text: string, size: int) returns (newP': nat, size': int)
    requires newP + size == buffer.Length && |text| <= size
    modifies buffer
    ensures newP' == newP + |text| && size' == size - |text|
    ensures buffer[..newP'] == old(buffer[..newP]) + text
  {
    newP', size' := newP, size;
    var i := 0;
    while i < |text| && size' > 0
      invariant i <= |text| && newP' == newP + i && size' == size - i
      invariant buffer[..newP'] == old(buffer[..newP]) + text[..i]
    {
      assert text[..i + 1] == text[..i] + [text[i]];
      buffer[newP'] := text[i];
      assert buffer[..newP' + 1] == buffer[..newP'] + [text[i]];
      newP' := newP' + 1;
      i := i + 1;
      size' := size' - 1;
    }
    assert text[..i] == text;
  }

  /** A replace count of 0 never stops the loop; a positive one stops it when it has been counted down. */
  function Remaining(r: Request, from: nat, pre: Anchor, post: Anchor, count: int): seq<nat>
    requires r.searchfor != []
  {
    var ps := EligibleFrom(r, from, pre, post);
    if count <= 0 then ps else Take(ps, count)
  }

  /** What the output still lacks when the copy has come to `from` with the places `rest` to go. */
  function Lacking(r: Request, from: nat, rest: seq<nat>): string
    requires Places(r.source, from, rest, |r.searchfor|)
  {
    Splice(r.source, from, rest, |r.searchfor|, r.replacewith)
  }

  lemma RemainingFirst(r: Request, from: nat, pre: Anchor, post: Anchor, count: int)
    requires r.searchfor != []
    ensures First(Remaining(r, from, pre, post, count)) == First(EligibleFrom(r, from, pre, post))
  {
  }

  lemma NothingLacking(r: Request, from: nat)
    requires from > |r.source|
    ensures Lacking(r, from, []) == ""
  {
  }

  /** The state at the head of the copying loop. */
  ghost predicate CopyState(r: Request, pre: Anchor, post: Anchor, from: nat, rest: seq<nat>, count: int)
    requires r.searchfor != []
  {
    && Places(r.source, from, rest, |r.searchfor|)
    && (from > |r.source| ==> rest == [] && count == 0)
    && (rest == Remaining(r, from, pre, post, count) || (rest == [] && count == 0))
  }

  /** What one round of the copying loop writes: a segment and a replacement, or the tail. */
  lemma SegmentLacks(r: Request, from: nat, end: nat, rest: seq<nat>)
    requires r.searchfor != [] && Places(r.source, from, rest, |r.searchfor|)
    requires end == (if rest == [] then |r.source| else rest[0])
    ensures end < |r.source| <==> rest != []
    ensures var rest' := if rest == [] then [] else rest[1..];
            && Places(r.source, end + |r.searchfor|, rest', |r.searchfor|)
            && Lacking(r, from, rest)
               == (if from <= end then r.source[from..end] else "")
                  + (if end < |r.source| then r.replacewith else "") + Lacking(r, end + |r.searchfor|, rest')
  {
    hide Places, Splice;
    SpliceFirst(r.source, from, rest, |r.searchfor|, r.replacewith);
    if rest == [] {
      PlacesNothing(r.source, end + |r.searchfor|, |r.searchfor|);
      SpliceFirst(r.source, end + |r.searchfor|, [], |r.searchfor|, r.replacewith);
    }
  }

  lemma PlacesNothing(s: string, from: nat, len: nat)
    ensures Places(s, from, [], len)
  {
  }

  /** One segment and one replacement, or the tail: lines 554-576. */
  method CopySegment(r: Request, buffer: array<char>, newP: nat, size: int, from: nat, end: nat, ghost rest: seq<nat>)
    returns (newP': nat, size': int)
    requires r.searchfor != [] && Places(r.source, from, rest, |r.searchfor|)
    requires end == (if rest == [] then |r.source| else rest[0])
    requires newP + size == buffer.Length && |Lacking(r, from, rest)| < size
    modifies buffer
    ensures newP' + size' == buffer.Length && size' >= 1
    ensures var rest' := if rest == [] then [] else rest[1..];
            Places(r.source, end + |r.searchfor|, rest', |r.searchfor|)
            && buffer[..newP'] + Lacking(r, end + |r.searchfor|, rest')
               == old(buffer[..newP]) + Lacking(r, from, rest)
  {
    hide Places, Splice;
    SegmentLacks(r, from, end, rest);
    newP', size' := newP, size;
    if from <= end {
      newP', size' := CopyInto(buffer, newP, r.source[from..end], size);
    }
    if end < |r.source| {
      newP', size' := CopyInto(buffer, newP', r.replacewith, size');
    }
  }

  const INT_MAX := 0x7FFF_FFFF

  /** The count that the size is computed with: of the occurrences if there is no limit, or the limit. */
  function CountFor(r: Request): nat
    requires r.searchfor != []
  {
    if |r.replacewith| > |r.searchfor| && r.replacenumber == 0 then
      |Occurrences(r.source, r.searchfor, r.insensitive)|
    else r.replacenumber
  }

  /** The size of lines 472-490, without the bounds of an int. */
  function SizeFor(r: Request): int
    requires r.searchfor != []
  {
    var diff := |r.replacewith| - |r.searchfor|;
    |r.source| + (if diff > 0 then diff * CountFor(r) else 0) + 1
  }

  /** The size, if it is computed at all, can be computed in an int. */
  predicate SizeFits(r: Request)
    requires r.searchfor != []
  {
    PreAnchor(r).Missing? || PostAnchor(r).Missing? || SizeFor(r) <= INT_MAX
  }

  /** The counting pass allots enough for every chosen place, and one byte for the NUL. */
  lemma SizeSuffices(r: Request)
    requires r.searchfor != []
    ensures Remaining(r, 0, PreAnchor(r), PostAnchor(r), CountFor(r)) == Chosen(r)
    ensures |Replaced(r)| < SizeFor(r)
  {
    hide Leftmost, Marks, Filter, Eligible, Splice, Places;
    FilterShorter(Occurrences(r.source, r.searchfor, r.insensitive), PreAnchor(r), PostAnchor(r));
    ChosenPlaces(r);
    SpliceLength(r.source, 0, Chosen(r), |r.searchfor|, r.replacewith);
    Outgrown(|Chosen(r)|, CountFor(r), |r.replacewith| - |r.searchfor|);
  }

  /** A 32-bit int after an overflow. */
  function Wrapped(x: int): int {
    (x + 0x8000_0000) % 0x1_0000_0000 - 0x8000_0000
  }

  /** A size that does not fit: with a limit of 2^29 and a replacement longer by eight, what is left of the
      size has no room for the result, and the copy would run out of memory. */
  lemma SizeOverflows()
    ensures var r := Request("a", "a", "bbbbbbbbb", None, None, 0x2000_0000, false);
            !SizeFits(r) && Wrapped(SizeFor(r)) == 2 && Replaced(r) == r.replacewith
  {
    var r := Request("a", "a", "bbbbbbbbb", None, None, 0x2000_0000, false);
    ReplacedIsRewrite(r);
    assert MatchAt("a", "a", 0, false) && !MatchAt("a", "a", 1, false);
    assert Rewrite(r, 1, 0x1FFF_FFFF) == "";
  }

  lemma Outgrown(k: nat, count: nat, diff: int)
    requires diff > 0 ==> k <= count
    ensures k * diff <= if diff > 0 then diff * count else 0
  {
    if diff > 0 {
      assert diff * count - k * diff == (count - k) * diff;
    }
  }

  /** A wanted anchor that is missing leaves nothing to replace. */
  lemma NothingEligible(r: Request)
    requires r.searchfor != [] && (PreAnchor(r) == Missing || PostAnchor(r) == Missing)
    ensures Replaced(r) == r.source
  {
    FilterNone(Occurrences(r.source, r.searchfor, r.insensitive), PreAnchor(r), PostAnchor(r));
    assert Chosen(r) == [];
  }

  lemma {:induction false} FilterNone(ps: seq<nat>, pre: Anchor, post: Anchor)
    requires pre == Missing || post == Missing
    ensures Filter(ps, pre, post) == []
  {
    if ps != [] {
      FilterNone(ps[1..], pre, post);
    }
  }

  /** What the loop head looks like after a segment, with the count already lowered. */
  lemma NextCopyState(r: Request, pre: Anchor, post: Anchor, from: nat, rest: seq<nat>, count: int)
    requires r.searchfor != [] && CopyState(r, pre, post, from, rest, count)
    ensures rest != [] ==>
              var from' := rest[0] + |r.searchfor|;
              from' <= |r.source| && CopyState(r, pre, post, from', rest[1..], count - 1)
              && (count == 1 ==> rest[1..] == [])
              && (count != 1 ==> rest[1..] == Remaining(r, from', pre, post, count - 1))
  {
    if rest != [] {
      EligibleTail(r, from, pre, post);
    }
  }

  /** Lines 586-655: where the next segment starts, if anywhere, and ends. */
  method NextSegment(r: Request, pre: Anchor, post: Anchor, count: int, end: nat, ghost from: nat, ghost rest: seq<nat>)
    returns (start: Option<nat>, end': Option<nat>, ghost rest': seq<nat>)
    requires r.searchfor != [] && CopyState(r, pre, post, from, rest, count + 1)
    requires end == (if rest == [] then |r.source| else rest[0])
    ensures rest' == if rest == [] then [] else rest[1..]
    ensures start.None? ==> rest' == [] && end + |r.searchfor| > |r.source|
    ensures start.Some? ==>
              && start.value == end + |r.searchfor| && CopyState(r, pre, post, start.value, rest', count)
              && end' == First(rest')
              && (start.value > |r.source| ==> from <= |r.source|)
  {
    hide EligibleFrom, Marks, Eligible, Splice, Remaining;
    NextCopyState(r, pre, post, from, rest, count + 1);
    rest' := if rest == [] then [] else rest[1..];
    start, end' := Some(end + |r.searchfor|), None;
    if count != 0 {
      if start.value > |r.source| {
        start := None;
      } else {
        end' := NextSegmentEnd(r, start.value, pre, post);
        RemainingFirst(r, start.value, pre, post, count);
      }
    }
  }

  /** Lines 493-663: the copying loop. The buffer never runs out, so the branch for that is dead. */
  method CopySegments(r: Request, pre: Anchor, post: Anchor, limit: int, allotted: int) returns (result: string)
    requires r.searchfor != [] && limit >= 0
    requires Places(r.source, 0, Remaining(r, 0, pre, post, limit), |r.searchfor|)
    requires |Lacking(r, 0, Remaining(r, 0, pre, post, limit))| < allotted
    ensures result == Lacking(r, 0, Remaining(r, 0, pre, post, limit))
  {
    hide EligibleFrom, Marks, Eligible, Splice, Remaining;
    var buffer := new char[allotted];
    var newP: nat := 0;
    var sizeRequired, replaceCount := allotted, limit;
    var segmentStart: Option<nat> := Some(0);
    var segmentEnd := NextSegmentEnd(r, 0, pre, post);
    ghost var rest := Remaining(r, 0, pre, post, limit);
    RemainingFirst(r, 0, pre, post, limit);
    ghost var whole := Lacking(r, 0, rest);
    while segmentStart.Some?
      invariant newP + sizeRequired == allotted && sizeRequired >= 1
      invariant segmentStart.Some? ==>
                  && CopyState(r, pre, post, segmentStart.value, rest, replaceCount)
                  && segmentEnd == First(rest)
                  && buffer[..newP] + Lacking(r, segmentStart.value, rest) == whole
      invariant segmentStart.None? ==> buffer[..newP] == whole
      decreases if segmentStart.None? then 0 else if segmentStart.value > |r.source| then 1
                else 2 + |r.source| - segmentStart.value
    {
      var from := segmentStart.value;
      var end := if segmentEnd.None? then |r.source| else segmentEnd.value;
      replaceCount := replaceCount - 1;
      newP, sizeRequired := CopySegment(r, buffer, newP, sizeRequired, from, end, rest);
      if sizeRequired < 1 {
        assert false;  // lines 578-583
      }
      segmentStart, segmentEnd, rest := NextSegment(r, pre, post, replaceCount, end, from, rest);
      if segmentStart.None? {
        NothingLacking(r, end + |r.searchfor|);
      }
    }
    result := buffer[..newP];
  }

  /** Lines 428-463: the anchors, if the wanted ones are there. */
  method FindAnchors(r: Request) returns (missing: bool, pre: Anchor, post: Anchor)
    ensures missing <==> PreAnchor(r).Missing? || PostAnchor(r).Missing?
    ensures !missing ==> pre == PreAnchor(r) && post == PostAnchor(r)
  {
    hide Marks, NextMark;
    pre, post := Absent, Absent;
    if r.preexist.Some? && |r.preexist.value| >= 1 {
      var location := PldStrstr(r.source, 0, r.preexist.value, r.insensitive);
      if location.None? {
        return true, pre, post;
      }
      pre := At(location.value);
    }
    if r.postexist.Some? && |r.postexist.value| >= 1 {
      var location := LastOccurrence(r.source, r.postexist.value, r.insensitive);
      if location.None? {
        return true, pre, post;
      }
      post := At(location.value);
    }
    missing := false;
  }

  /** Lines 472-490: the count and the size. */
  method SizeBuffer(r: Request) returns (replaceCount: int, sizeRequired: int)
    requires r.searchfor != []
    ensures replaceCount == CountFor(r) && sizeRequired == SizeFor(r)
  {
    hide Occurrences;
    var sizeDifference := |r.replacewith| - |r.searchfor|;
    replaceCount := r.replacenumber;
    sizeRequired := |r.source| + 1;
    if sizeDifference > 0 {
      if replaceCount == 0 {
        replaceCount := CountOccurrences(r.source, r.searchfor, r.insensitive);
      }
      sizeRequired := |r.source| + sizeDifference * replaceCount + 1;
    }
  }

  /** `PLD_strreplace_general`; a source that is returned as it is counts as its own replacement. */
  method StrReplaceGeneral(r: Request) returns (result: string)
    requires r.searchfor != [] && SizeFits(r)
    ensures result == Replaced(r) && WellReplaced(r, result)
  {
    ReplacedWell(r);
    hide PreAnchor, PostAnchor, CountFor, SizeFor, Remaining, Splice, WellReplaced;
    var missing, pre, post := FindAnchors(r);
    if missing {
      NothingEligible(r);
      return r.source;
    }
    var replaceCount, sizeRequired := SizeBuffer(r);
    assert sizeRequired <= INT_MAX;
    SizeSuffices(r);
    ChosenPlaces(r);
    result := CopySegments(r, pre, post, replaceCount, sizeRequired);
  }
}
