/** The glob matcher that remembers only the last star, against the nondeterministic meaning of a
    pattern. */
module Glob {
  import opened Words

  const QUESTION: u8 := 63
  const STAR: u8 := 42
  const OPEN: u8 := 91
  const CLOSE: u8 := 93
  const BANG: u8 := 33
  const DASH: u8 := 45
  const BACKSLASH: u8 := 92

  /** A byte string with its terminating NUL. */
  predicate CString(s: seq<u8>) {
    |s| > 0 && s[|s| - 1] == 0 && forall i :: 0 <= i < |s| - 1 ==> s[i] != 0
  }

  // ----- patterns -----

  type Ranges = seq<(u8, u8)>

  datatype Token = Any | Star | Lit(c: u8) | Class(inverted: bool, ranges: Ranges)

  /** The ranges of a class whose first member is at i, and where the pattern goes on; none if the
      class is never closed. */
  function ClassFrom(pat: seq<u8>, i: nat): (r: Option<(Ranges, nat)>)
    requires CString(pat) && i < |pat|
    ensures r.Some? ==> i < r.value.1 < |pat|
    decreases |pat| - i
  {
    var a := pat[i];
    if a == 0 then None
    else
      var dashed := pat[i + 1] == DASH && pat[i + 2] != CLOSE;
      var b := if dashed then pat[i + 2] else a;
      if b == 0 then None
      else
        var next := if dashed then i + 3 else i + 1;
        if pat[next] == CLOSE then Some(([(a, b)], next + 1))
        else
          var rest := ClassFrom(pat, next);
          if rest.None? then None else Some(([(a, b)] + rest.value.0, rest.value.1))
  }

  /** The pattern from i on; a trailing backslash stands for nothing. */
  function Tokens(pat: seq<u8>, i: nat): (ts: seq<Token>)
    requires CString(pat) && i < |pat|
    decreases |pat| - i
  {
    var d := pat[i];
    if d == 0 then []
    else if d == QUESTION then [Any] + Tokens(pat, i + 1)
    else if d == STAR then [Star] + Tokens(pat, i + 1)
    else if d == OPEN then
      var inverted := pat[i + 1] == BANG;
      var class_ := ClassFrom(pat, if inverted then i + 2 else i + 1);
      if class_.Some? then [Class(inverted, class_.value.0)] + Tokens(pat, class_.value.1)
      else [Lit(OPEN)] + Tokens(pat, i + 1)
    else if d == BACKSLASH then
      if pat[i + 1] == 0 then [] else [Lit(pat[i + 1])] + Tokens(pat, i + 2)
    else [Lit(d)] + Tokens(pat, i + 1)
  }

  predicate InRanges(rs: Ranges, c: u8) {
    exists k :: 0 <= k < |rs| && rs[k].0 <= c <= rs[k].1
  }

  predicate Accepts(t: Token, c: u8) {
    match t
    case Any => true
    case Star => false
    case Lit(x) => c == x
    case Class(inverted, rs) => InRanges(rs, c) != inverted
  }

  /** The meaning of a pattern: a star stands for any substring, everything else for one byte. */
  ghost predicate Matches(ts: seq<Token>, s: seq<u8>)
    decreases |ts|
  {
    if ts == [] then s == []
    else
      var n := |ts| - 1;
      if ts[n].Star? then exists i :: 0 <= i <= |s| && Matches(ts[..n], s[..i])
      else s != [] && Accepts(ts[n], s[|s| - 1]) && Matches(ts[..n], s[..|s| - 1])
  }

  // ----- prefixes -----

  /** The first t tokens match the first i bytes. */
  ghost predicate Reach(ts: seq<Token>, s: seq<u8>, t: nat, i: nat)
    requires t <= |ts| && i <= |s|
  {
    Matches(ts[..t], s[..i])
  }

  lemma ReachZero(ts: seq<Token>, s: seq<u8>, i: nat)
    requires i <= |s|
    ensures Reach(ts, s, 0, i) <==> i == 0
  {
  }

  lemma ReachByte(ts: seq<Token>, s: seq<u8>, t: nat, i: nat)
    requires t < |ts| && i <= |s| && !ts[t].Star?
    ensures Reach(ts, s, t + 1, i) <==> i > 0 && Accepts(ts[t], s[i - 1]) && Reach(ts, s, t, i - 1)
  {
    assert ts[..t + 1][..t] == ts[..t];
    if i > 0 {
      assert s[..i][..i - 1] == s[..i - 1];
    }
  }

  lemma ReachStar(ts: seq<Token>, s: seq<u8>, t: nat, i: nat)
    requires t < |ts| && i <= |s| && ts[t].Star?
    ensures Reach(ts, s, t + 1, i) <==> exists j :: 0 <= j <= i && Reach(ts, s, t, j)
  {
    assert ts[..t + 1][..t] == ts[..t];
    if Reach(ts, s, t + 1, i) {
      var j :| 0 <= j <= i && Matches(ts[..t], s[..i][..j]);
      assert s[..i][..j] == s[..j];
      assert Reach(ts, s, t, j);
    }
    if j :| 0 <= j <= i && Reach(ts, s, t, j) {
      assert s[..i][..j] == s[..j];
    }
  }

  /** Tokens from p on, none of them a star, accept the bytes from b on, one each. */
  ghost predicate Segment(ts: seq<Token>, s: seq<u8>, p: nat, b: nat, k: nat) {
    p + k <= |ts| && b + k <= |s| && forall j :: p <= j < p + k ==> !ts[j].Star? && Accepts(ts[j], s[b + (j - p)])
  }

  lemma {:induction false} SegmentReach(ts: seq<Token>, s: seq<u8>, p: nat, b: nat, k: nat)
    requires Segment(ts, s, p, b, k) && Reach(ts, s, p, b)
    ensures Reach(ts, s, p + k, b + k)
  {
    if k > 0 {
      SegmentReach(ts, s, p, b, k - 1);
      ReachByte(ts, s, p + k - 1, b + k);
    }
  }

  lemma {:induction false} ReachSegment(ts: seq<Token>, s: seq<u8>, p: nat, k: nat, i: nat)
    requires p + k <= |ts| && i <= |s| && (forall j :: p <= j < p + k ==> !ts[j].Star?) && Reach(ts, s, p + k, i)
    ensures i >= k && Reach(ts, s, p, i - k) && Segment(ts, s, p, i - k, k)
  {
    if k > 0 {
      ReachByte(ts, s, p + k - 1, i);
      ReachSegment(ts, s, p, k - 1, i - 1);
      assert Segment(ts, s, p, i - k, k - 1);
    }
  }

  /** A match through token t passes the first star at or after p, if there is one. */
  lemma {:induction false} FirstStar(ts: seq<Token>, s: seq<u8>, p: nat, t: nat, i: nat) returns (q: nat, h: nat)
    requires p <= t <= |ts| && i <= |s| && Reach(ts, s, t, i)
    ensures p <= q <= t && h <= i && Reach(ts, s, q, h)
    ensures forall j :: p <= j < q ==> !ts[j].Star?
    ensures (q == t && h == i) || (q < t && ts[q].Star?)
  {
    hide Reach;
    if t == p {
      q, h := t, i;
    } else if ts[t - 1].Star? {
      ReachStar(ts, s, t - 1, i);
      var j :| 0 <= j <= i && Reach(ts, s, t - 1, j);
      q, h := FirstStar(ts, s, p, t - 1, j);
    } else {
      ReachByte(ts, s, t - 1, i);
      q, h := FirstStar(ts, s, p, t - 1, i - 1);
      if q == t - 1 {
        q, h := t, i;
      }
    }
  }

  // ----- the search -----

  /** The start b after the last star has been tried and ran into a byte the pattern rejects. */
  ghost predicate Refuted(ts: seq<Token>, s: seq<u8>, p: nat, b: nat) {
    exists k: nat :: Segment(ts, s, p, b, k) && b + k < |s|
                && (p + k == |ts| || (!ts[p + k].Star? && !Accepts(ts[p + k], s[b + k])))
  }

  /** Where the tokens before p can end: exactly at 0 before any star, anywhere from e on after one. */
  ghost predicate Starts(ts: seq<Token>, s: seq<u8>, p: nat, e: nat, starred: bool)
    requires p <= |ts|
  {
    forall b :: 0 <= b <= |s| ==> (Reach(ts, s, p, b) <==> if starred then e <= b else b == 0)
  }

  /** What the loop knows: the part after the last star has been refuted at every start before bs, and
      matches so far from bs. */
  ghost predicate Searching(ts: seq<Token>, s: seq<u8>, p: nat, e: nat, starred: bool, bs: nat, t: nat, i: nat) {
    && p <= t <= |ts| && e <= bs <= i <= |s| && i - bs == t - p && (!starred ==> e == bs == 0)
    && Starts(ts, s, p, e, starred) && Segment(ts, s, p, bs, t - p)
    && forall b :: e <= b < bs ==> Refuted(ts, s, p, b)
  }

  lemma SearchReaches(ts: seq<Token>, s: seq<u8>, p: nat, e: nat, starred: bool, bs: nat, t: nat, i: nat)
    requires Searching(ts, s, p, e, starred, bs, t, i)
    ensures Reach(ts, s, t, i)
  {
    hide Reach;
    assert Reach(ts, s, p, bs);
    SegmentReach(ts, s, p, bs, t - p);
  }

  /** A segment that is refuted cannot run on to a star or to the end of the string. */
  lemma RefutedStops(ts: seq<Token>, s: seq<u8>, p: nat, b: nat, k: nat)
    requires Refuted(ts, s, p, b) && Segment(ts, s, p, b, k)
    ensures p + k < |ts| ==> !ts[p + k].Star?
    ensures b + k < |s|
  {
    var m: nat :| Segment(ts, s, p, b, m) && b + m < |s|
      && (p + m == |ts| || (!ts[p + m].Star? && !Accepts(ts[p + m], s[b + m])));
  }

  /** At a star, the earliest place the tokens before it can end is the current one. */
  lemma StarIsEarliest(ts: seq<Token>, s: seq<u8>, p: nat, e: nat, starred: bool, bs: nat, t: nat, i: nat)
    requires Searching(ts, s, p, e, starred, bs, t, i) && t < |ts| && ts[t].Star?
    ensures Searching(ts, s, t + 1, i, true, i, t + 1, i)
  {
    hide Reach;
    SearchReaches(ts, s, p, e, starred, bs, t, i);
    var after := t + 1;
    forall b | 0 <= b <= |s|
      ensures Reach(ts, s, after, b) <==> i <= b
    {
      ReachStar(ts, s, t, b);
      if j :| 0 <= j <= b && Reach(ts, s, t, j) {
        ReachSegment(ts, s, p, t - p, j);
        if j < i {
          RefutedStops(ts, s, p, j - (t - p), t - p);
          assert false;
        }
      }
    }
  }

  /** At the end of the string, no longer pattern prefix matches the whole string. */
  lemma EndIsLongest(ts: seq<Token>, s: seq<u8>, p: nat, e: nat, starred: bool, bs: nat, t: nat, u: nat)
    requires Searching(ts, s, p, e, starred, bs, t, |s|) && (t == |ts| || !ts[t].Star?) && t < u <= |ts|
    ensures !Reach(ts, s, u, |s|)
  {
    hide Reach;
    if Reach(ts, s, u, |s|) {
      var q, h := FirstStar(ts, s, p, u, |s|);
      ReachSegment(ts, s, p, q - p, h);
      var b := h - (q - p);
      assert q > t;
      RefutedStops(ts, s, p, b, q - p);
      assert false;
    }
  }

  /** Without a star, a rejected byte settles it: no pattern prefix matches the whole string. */
  lemma AnchoredFails(ts: seq<Token>, s: seq<u8>, t: nat, u: nat)
    requires Searching(ts, s, 0, 0, false, 0, t, t) && t < |s| && u <= |ts|
    requires t == |ts| || (!ts[t].Star? && !Accepts(ts[t], s[t]))
    ensures !Reach(ts, s, u, |s|)
  {
    hide Reach;
    if Reach(ts, s, u, |s|) {
      var q, h := FirstStar(ts, s, 0, u, |s|);
      ReachSegment(ts, s, 0, q, h);
      assert false;
    }
  }

  /** Going on from the next start after a rejected byte. */
  lemma Backtrack(ts: seq<Token>, s: seq<u8>, p: nat, e: nat, bs: nat, t: nat, i: nat)
    requires Searching(ts, s, p, e, true, bs, t, i) && i < |s|
    requires t == |ts| || (!ts[t].Star? && !Accepts(ts[t], s[i]))
    ensures bs + 1 <= |s| && Searching(ts, s, p, e, true, bs + 1, p, bs + 1)
  {
    hide Reach;
    assert Refuted(ts, s, p, bs);
  }

  lemma Advance(ts: seq<Token>, s: seq<u8>, p: nat, e: nat, starred: bool, bs: nat, t: nat, i: nat)
    requires Searching(ts, s, p, e, starred, bs, t, i) && t < |ts| && i < |s| && !ts[t].Star? && Accepts(ts[t], s[i])
    ensures Searching(ts, s, p, e, starred, bs, t + 1, i + 1)
  {
    hide Reach;
  }

  // ----- the matcher -----

  datatype Outcome = Yes | No | OverRead

  /** The matcher runs off the string exactly when the longest pattern prefix that matches the whole
      string is followed by an inverted class. */
  ghost predicate RunsOff(ts: seq<Token>, s: seq<u8>) {
    exists t :: 0 <= t < |ts| && Matches(ts[..t], s) && ts[t].Class? && ts[t].inverted
             && forall u :: t < u <= |ts| ==> !Matches(ts[..u], s)
  }

  lemma NotLongest(ts: seq<Token>, s: seq<u8>, t: nat)
    requires t < |ts| && Reach(ts, s, t, |s|) && !(ts[t].Class? && ts[t].inverted)
    requires forall u :: t < u <= |ts| ==> !Reach(ts, s, u, |s|)
    ensures !Matches(ts, s) && !RunsOff(ts, s)
  {
    assert s[..|s|] == s && ts[..|ts|] == ts;
    assert Reach(ts, s, |ts|, |s|) == Matches(ts, s);
    assert forall u :: 0 <= u <= |ts| ==> Reach(ts, s, u, |s|) == Matches(ts[..u], s);
  }

  lemma Longest(ts: seq<Token>, s: seq<u8>, t: nat)
    requires t < |ts| && Reach(ts, s, t, |s|) && ts[t].Class? && ts[t].inverted
    requires forall u :: t < u <= |ts| ==> !Reach(ts, s, u, |s|)
    ensures !Matches(ts, s) && RunsOff(ts, s)
  {
    assert s[..|s|] == s && ts[..|ts|] == ts;
    assert Reach(ts, s, |ts|, |s|) == Matches(ts, s);
    assert forall u :: 0 <= u <= |ts| ==> Reach(ts, s, u, |s|) == Matches(ts[..u], s);
  }

  lemma NoneReaches(ts: seq<Token>, s: seq<u8>)
    requires forall u :: 0 <= u <= |ts| ==> !Reach(ts, s, u, |s|)
    ensures !Matches(ts, s) && !RunsOff(ts, s)
  {
    assert s[..|s|] == s && ts[..|ts|] == ts;
    assert forall u :: 0 <= u <= |ts| ==> Reach(ts, s, u, |s|) == Matches(ts[..u], s);
    assert Reach(ts, s, |ts|, |s|) == Matches(ts, s);
  }

  lemma WholeReaches(ts: seq<Token>, s: seq<u8>)
    requires Reach(ts, s, |ts|, |s|)
    ensures Matches(ts, s) && !RunsOff(ts, s)
  {
    assert s[..|s|] == s && ts[..|ts|] == ts;
  }

  /** Ranges already read in front of the rest of a class. */
  function After(seen: Ranges, rest: Option<(Ranges, nat)>): (r: Option<(Ranges, nat)>) {
    if rest.None? then None else Some((seen + rest.value.0, rest.value.1))
  }

  /** Walks a class: whether it is malformed, whether the byte is in it, and where the pattern goes on. */
  method ScanClass(pat: seq<u8>, start: nat, c: u8) returns (malformed: bool, matched: bool, next: nat)
    requires CString(pat) && start < |pat|
    ensures malformed <==> ClassFrom(pat, start).None?
    ensures !malformed ==> ClassFrom(pat, start).value.1 == next
    ensures !malformed ==> (matched <==> InRanges(ClassFrom(pat, start).value.0, c))
  {
    NoRanges(c);
    hide InRanges, ClassFrom, CString;
    var a := pat[start];
    next := start + 1;
    matched, malformed := false, false;
    ghost var seen: Ranges := [];
    ghost var whole := ClassFrom(pat, start);
    assert whole.Some? ==> seen + whole.value.0 == whole.value.0;
    while true
      invariant 1 <= next <= |pat| && a == pat[next - 1]
      invariant matched <==> InRanges(seen, c)
      invariant whole == After(seen, ClassFrom(pat, next - 1))
      decreases |pat| - next
    {
      ClassUnfold(pat, next - 1);
      var b := a;
      if a == 0 {
        malformed := true;
        return;
      }
      if pat[next] == DASH && pat[next + 1] != CLOSE {
        b := pat[next + 1];
        if b == 0 {
          malformed := true;
          return;
        }
        next := next + 2;
      }
      ghost var before, range := seen, (a, b);
      seen := seen + [range];
      matched := matched || a <= c <= b;
      InRangesSnoc(before, range, c);
      a := pat[next];
      next := next + 1;
      if a == CLOSE {
        return;
      }
      AfterStep(before, range, ClassFrom(pat, next - 1));
    }
  }

  /** One range of a class, with the bounds every read stays within. */
  lemma ClassUnfold(pat: seq<u8>, i: nat)
    requires CString(pat) && i < |pat|
    ensures pat[i] == 0 ==> ClassFrom(pat, i) == None
    ensures pat[i] != 0 ==>
              && i + 1 < |pat| && (pat[i + 1] == DASH ==> i + 2 < |pat|)
              && var dashed := pat[i + 1] == DASH && pat[i + 2] != CLOSE;
                 var b := if dashed then pat[i + 2] else pat[i];
                 if b == 0 then ClassFrom(pat, i) == None
                 else
                   var n := if dashed then i + 3 else i + 1;
                   && n < |pat|
                   && ClassFrom(pat, i) == if pat[n] == CLOSE then Some(([(pat[i], b)], n + 1))
                                           else After([(pat[i], b)], ClassFrom(pat, n))
  {
  }

  lemma AfterStep(before: Ranges, range: (u8, u8), rest: Option<(Ranges, nat)>)
    ensures After(before, After([range], rest)) == After(before + [range], rest)
  {
    if rest.Some? {
      assert before + ([range] + rest.value.0) == before + [range] + rest.value.0;
    }
  }

  lemma NoRanges(c: u8)
    ensures !InRanges([], c)
  {
  }

  lemma InRangesSnoc(rs: Ranges, r: (u8, u8), c: u8)
    ensures InRanges(rs + [r], c) <==> InRanges(rs, c) || r.0 <= c <= r.1
  {
    var all := rs + [r];
    assert all[|rs|] == r;
    if InRanges(rs, c) {
      var k :| 0 <= k < |rs| && rs[k].0 <= c <= rs[k].1;
      assert all[k] == rs[k];
    }
  }

  lemma HeadTail(ts: seq<Token>, t: nat, x: Token, rest: seq<Token>)
    requires t <= |ts| && ts[t..] == [x] + rest
    ensures t < |ts| && ts[t] == x && ts[t + 1..] == rest
  {
    assert |ts[t..]| == 1 + |rest|;
    assert ts[t] == ts[t..][0];
    assert ts[t + 1..] == ts[t..][1..];
  }

  lemma SearchStarts(ts: seq<Token>, s: seq<u8>)
    ensures Searching(ts, s, 0, 0, false, 0, 0, 0)
  {
    forall b | 0 <= b <= |s|
      ensures Reach(ts, s, 0, b) <==> b == 0
    {
      ReachZero(ts, s, b);
    }
  }

  /** The end of the string meets a token that is not a star. */
  lemma EndOfString(ts: seq<Token>, s: seq<u8>, p: nat, e: nat, starred: bool, bs: nat, t: nat)
    requires Searching(ts, s, p, e, starred, bs, t, |s|) && t < |ts| && !ts[t].Star?
    ensures !Matches(ts, s)
    ensures RunsOff(ts, s) <==> ts[t].Class? && ts[t].inverted
  {
    hide Reach, Matches, RunsOff, Searching;
    SearchReaches(ts, s, p, e, starred, bs, t, |s|);
    forall u | t < u <= |ts|
      ensures !Reach(ts, s, u, |s|)
    {
      EndIsLongest(ts, s, p, e, starred, bs, t, u);
    }
    if ts[t].Class? && ts[t].inverted {
      Longest(ts, s, t);
    } else {
      NotLongest(ts, s, t);
    }
  }

  /** Pattern and string end together. */
  lemma WholeMatched(ts: seq<Token>, s: seq<u8>, p: nat, e: nat, starred: bool, bs: nat)
    requires Searching(ts, s, p, e, starred, bs, |ts|, |s|)
    ensures Matches(ts, s) && !RunsOff(ts, s)
  {
    hide Reach, Matches, RunsOff, Searching;
    SearchReaches(ts, s, p, e, starred, bs, |ts|, |s|);
    WholeReaches(ts, s);
  }

  /** The last token is a star. */
  lemma LastStar(ts: seq<Token>, s: seq<u8>, p: nat, e: nat, starred: bool, bs: nat, t: nat, i: nat)
    requires Searching(ts, s, p, e, starred, bs, t, i) && t + 1 == |ts| && ts[t].Star?
    ensures Matches(ts, s) && !RunsOff(ts, s)
  {
    SearchReaches(ts, s, p, e, starred, bs, t, i);
    hide Reach, Matches, RunsOff;
    ReachStar(ts, s, t, |s|);
    WholeReaches(ts, s);
  }

  /** A rejected byte before any star. */
  lemma NoStarNoMatch(ts: seq<Token>, s: seq<u8>, t: nat, i: nat)
    requires Searching(ts, s, 0, 0, false, 0, t, i) && i < |s|
    requires t == |ts| || (!ts[t].Star? && !Accepts(ts[t], s[i]))
    ensures !Matches(ts, s) && !RunsOff(ts, s)
  {
    assert t == i;
    hide Reach, Matches, RunsOff, Searching;
    forall u | 0 <= u <= |ts|
      ensures !Reach(ts, s, u, |s|)
    {
      AnchoredFails(ts, s, t, u);
    }
    NoneReaches(ts, s);
  }

  /** No class contains NUL. */
  lemma {:induction false} ClassAvoidsNul(pat: seq<u8>, i: nat)
    requires CString(pat) && i < |pat|
    ensures ClassFrom(pat, i).Some? ==> !InRanges(ClassFrom(pat, i).value.0, 0)
    decreases |pat| - i
  {
    if pat[i] != 0 {
      var dashed := pat[i + 1] == DASH && pat[i + 2] != CLOSE;
      var b := if dashed then pat[i + 2] else pat[i];
      if b != 0 {
        ClassAvoidsNul(pat, if dashed then i + 3 else i + 1);
      }
    }
  }

  datatype Taken = Accept | Reject | Finish

  predicate Inverted(t: Token) { t.Class? && t.inverted }

  /** One byte, possibly the NUL, against the class, escape or literal at the head of the pattern. */
  method Take(pat: seq<u8>, at: nat, c: u8) returns (taken: Taken, next: nat)
    requires CString(pat) && at < |pat| && pat[at] != QUESTION && pat[at] != STAR
    ensures Tokens(pat, at) == [] ==> taken == (if c == 0 then Finish else Reject)
    ensures Tokens(pat, at) != [] ==>
              var x := Tokens(pat, at)[0];
              && !x.Star?
              && taken == (if (if c == 0 then Inverted(x) else Accepts(x, c)) then Accept else Reject)
              && (taken == Accept ==> next < |pat| && Tokens(pat, next) == Tokens(pat, at)[1..])
  {
    hide ClassFrom, InRanges;
    var d := pat[at];
    next := at + 1;
    if d == OPEN {
      var inverted := pat[next] == BANG;
      var start := if inverted then next + 1 else next;
      ClassAvoidsNul(pat, start);
      var malformed, matched, end := ScanClass(pat, start, c);
      if malformed {
        taken := if c == d then Accept else Reject;
      } else if matched == inverted {
        taken := Reject;
      } else {
        taken, next := Accept, end;
      }
    } else if d == BACKSLASH {
      var d2 := pat[next];
      next := next + 1;
      taken := if c == d2 then (if d2 == 0 then Finish else Accept) else Reject;
    } else {
      taken := if c == d then (if d == 0 then Finish else Accept) else Reject;
    }
  }

  /** Matches a string against a pattern, backing up to the last star only. The answer is the
      pattern's meaning, except that an inverted class at the end of the string runs off it. */
  method GlobMatch(pat: seq<u8>, str: seq<u8>) returns (r: Outcome)
    requires CString(pat) && CString(str)
    ensures r == Yes <==> Matches(Tokens(pat, 0), str[..|str| - 1])
    ensures r == OverRead <==> RunsOff(Tokens(pat, 0), str[..|str| - 1])
  {
    hide Matches, RunsOff, Searching, Tokens, Accepts;
    ghost var ts, s := Tokens(pat, 0), str[..|str| - 1];
    var pi, si := 0, 0;
    var backPat, backStr := -1, 0;
    ghost var t, p, e := 0, 0, 0;
    SearchStarts(ts, s);
    while true
      invariant 0 <= pi < |pat| && 0 <= si <= |str| && -1 <= backPat < |pat| && 0 <= backStr < |str|
      invariant p <= t <= |ts| && (backPat < 0 ==> p == e == backStr == 0)
      invariant si == |str| ==> !Matches(ts, s) && RunsOff(ts, s)
      invariant si < |str| ==> Tokens(pat, pi) == ts[t..] && Searching(ts, s, p, e, backPat >= 0, backStr, t, si)
      invariant backPat >= 0 ==> Tokens(pat, backPat) == ts[p..]
      decreases |ts| - p, |str| - backStr, |str| - si
    {
      if si == |str| { return OverRead; }
      ghost var i := si;
      var c := str[si];
      si := si + 1;
      WildToken(pat, pi);
      if pat[pi] == QUESTION {
        pi := pi + 1;
        HeadTail(ts, t, Any, Tokens(pat, pi));
        if c == 0 {
          EndOfString(ts, s, p, e, backPat >= 0, backStr, t);
          return No;
        }
        AnyAccepts(c);
        Advance(ts, s, p, e, backPat >= 0, backStr, t, i);
        t := t + 1;
      } else if pat[pi] == STAR {
        pi := pi + 1;
        HeadTail(ts, t, Star, Tokens(pat, pi));
        if pat[pi] == 0 {
          NoToken(pat, pi);
          LastStar(ts, s, p, e, backPat >= 0, backStr, t, i);
          return Yes;
        }
        StarIsEarliest(ts, s, p, e, backPat >= 0, backStr, t, i);
        si := si - 1;
        backPat, backStr := pi, si;
        t, p, e := t + 1, t + 1, i;
      } else {
        var taken, next := Take(pat, pi, c);
        assert Tokens(pat, pi) != [] ==> Tokens(pat, pi)[0] == ts[t];
        match taken {
          case Finish =>
            WholeMatched(ts, s, p, e, backPat >= 0, backStr);
            return Yes;
          case Accept =>
            pi := next;
            if c == 0 {
              EndOfString(ts, s, p, e, backPat >= 0, backStr, t);
            } else {
              Advance(ts, s, p, e, backPat >= 0, backStr, t, i);
              t := t + 1;
            }
          case Reject =>
            if c == 0 {
              EndOfString(ts, s, p, e, backPat >= 0, backStr, t);
              return No;
            }
            if backPat < 0 {
              NoStarNoMatch(ts, s, t, i);
              return No;
            }
            Backtrack(ts, s, p, e, backStr, t, i);
            pi := backPat;
            backStr := backStr + 1;
            si := backStr;
            t := p;
        }
      }
    }
  }

  lemma WildToken(pat: seq<u8>, i: nat)
    requires CString(pat) && i < |pat|
    ensures pat[i] == QUESTION ==> i + 1 < |pat| && Tokens(pat, i) == [Any] + Tokens(pat, i + 1)
    ensures pat[i] == STAR ==> i + 1 < |pat| && Tokens(pat, i) == [Star] + Tokens(pat, i + 1)
  {
  }

  lemma NoToken(pat: seq<u8>, i: nat)
    requires CString(pat) && i < |pat| && pat[i] == 0
    ensures Tokens(pat, i) == []
  {
  }

  lemma AnyAccepts(c: u8)
    ensures Accepts(Any, c)
  {
  }

  /** The pattern [!a] runs off the empty string. */
  lemma InvertedClassRunsOff()
    ensures var pat: seq<u8> := [OPEN, BANG, 97, CLOSE, 0];
            CString(pat) && RunsOff(Tokens(pat, 0), [])
  {
    var pat: seq<u8> := [OPEN, BANG, 97, CLOSE, 0];
    assert ClassFrom(pat, 2) == Some(([(97, 97)], 4));
    var ts := Tokens(pat, 0);
    assert Tokens(pat, 4) == [];
    assert ts == [Class(true, [(97, 97)])];
    assert ts[..0] == [] && ts[..1] == ts;
    assert Matches(ts[..0], []);
    assert !Matches(ts[..1], []);
  }

  /** A pattern without inverted classes never runs off the string. */
  lemma PlainPatternsStayInside(ts: seq<Token>, s: seq<u8>)
    requires forall t :: 0 <= t < |ts| ==> !Inverted(ts[t])
    ensures !RunsOff(ts, s)
  {
    hide Matches;
  }
}
