/** Substring search over strings, in the shape of JavaScript's `indexOf` and
    `includes`, plus the facts about splicing that the mergers rely on. */
module Text {

  datatype Option<T> = None | Some(value: T)

  /** `p` occurs in `s` starting at index `i`. */
  predicate OccursAt(s: string, p: string, i: int) {
    0 <= i && i + |p| <= |s| && s[i..i + |p|] == p
  }

  /** `s.indexOf(p, from)`: the first position at or after `from` where `p` occurs. */
  function IndexOfFrom(s: string, p: string, from: nat): (r: Option<nat>)
    ensures r.Some? ==> from <= r.value && OccursAt(s, p, r.value)
    ensures r.Some? ==> forall j :: from <= j < r.value ==> !OccursAt(s, p, j)
    ensures r.None? ==> forall j :: from <= j ==> !OccursAt(s, p, j)
    decreases |s| - from
  {
    if from + |p| > |s| then None
    else if s[from..from + |p|] == p then Some(from)
    else IndexOfFrom(s, p, from + 1)
  }

  /** `s.indexOf(p)`, with `None` for JavaScript's -1. */
  function IndexOf(s: string, p: string): Option<nat> {
    IndexOfFrom(s, p, 0)
  }

  /** `s.includes(p)`. */
  predicate Contains(s: string, p: string) {
    IndexOf(s, p).Some?
  }

  /** An occurrence makes `includes` true. */
  lemma OccursContains(s: string, p: string, i: int)
    requires OccursAt(s, p, i)
    ensures Contains(s, p)
  {
  }

  /** When `includes` is false there is no occurrence anywhere. */
  lemma MissingNowhere(s: string, p: string)
    requires !Contains(s, p)
    ensures forall j :: !OccursAt(s, p, j)
  {
  }

  /** A position that occurs and has no occurrence before it (from `from` on) is
      what `IndexOfFrom` finds. */
  lemma IndexOfFromIs(s: string, p: string, from: nat, i: nat)
    requires from <= i && OccursAt(s, p, i)
    requires forall j :: from <= j < i ==> !OccursAt(s, p, j)
    ensures IndexOfFrom(s, p, from) == Some(i)
  {
  }

  /** Each character of an occurrence is the matching character of the pattern. */
  lemma OccursAtChar(s: string, p: string, i: int, t: int)
    requires i <= t < i + |p|
    ensures OccursAt(s, p, i) ==> s[t] == p[t - i]
  {
    if OccursAt(s, p, i) {
      assert s[i..i + |p|][t - i] == s[t];
    }
  }

  /** An occurrence inside a piece of a concatenation is an occurrence in the whole. */
  lemma OccursInConcat(a: string, b: string, c: string, p: string, j: int)
    requires OccursAt(b, p, j)
    ensures OccursAt(a + b + c, p, |a| + j)
  {
    assert (a + b + c)[|a| + j..|a| + j + |p|] == b[j..j + |p|];
  }

  /** An occurrence of `x + y` is one of `x` followed by one of `y`. */
  lemma Split(r: string, x: string, y: string, i: int)
    requires OccursAt(r, x + y, i)
    ensures OccursAt(r, x, i) && OccursAt(r, y, i + |x|)
  {
    assert r[i..i + |x|] == r[i..i + |x| + |y|][..|x|];
    assert r[i + |x|..i + |x| + |y|] == r[i..i + |x| + |y|][|x|..];
  }

  /** An occurrence in a prefix is one in the whole. */
  lemma OccursInFront(a: string, b: string, p: string, i: int)
    requires OccursAt(a, p, i)
    ensures OccursAt(a + b, p, i)
  {
    assert (a + b)[i..i + |p|] == a[i..i + |p|];
  }

  /** An occurrence that lies inside a window of `s` is an occurrence in that window. */
  lemma OccursInWindow(s: string, w: string, a: int, p: string, j: int)
    requires OccursAt(s, w, a) && a <= j && j + |p| <= a + |w|
    ensures OccursAt(s, p, j) <==> OccursAt(w, p, j - a)
  {
    forall t | j <= t < j + |p|
      ensures s[t] == w[t - a]
    {
      OccursAtChar(s, w, a, t);
    }
    assert s[j..j + |p|] == w[j - a..j - a + |p|];
  }

  /** If `t` agrees with `s` up to the end of the first occurrence of `p` in `s`,
      the first occurrence of `p` in `t` is at the same place. */
  lemma {:induction false} IndexOfCommonPrefix(s: string, t: string, p: string, i: nat)
    requires IndexOf(s, p) == Some(i)
    requires i + |p| <= |t| && t[..i + |p|] == s[..i + |p|]
    ensures IndexOf(t, p) == Some(i)
  {
    forall j | 0 <= j <= i
      ensures OccursAt(t, p, j) <==> OccursAt(s, p, j)
    {
      SliceOfPrefix(t, i + |p|, j, j + |p|);
      SliceOfPrefix(s, i + |p|, j, j + |p|);
    }
    IndexOfFromIs(t, p, 0, i);
  }

  lemma SliceOfPrefix(s: string, n: int, j: int, k: int)
    requires 0 <= j <= k <= n <= |s|
    ensures s[..n][j..k] == s[j..k]
  {
  }

  /** Substring containment survives being embedded: `b` inside `a + b + c`. */
  lemma ContainsInFront(a: string, b: string, p: string)
    requires Contains(a, p)
    ensures Contains(a + b, p)
  {
    OccursInFront(a, b, p, IndexOf(a, p).value);
    OccursContains(a + b, p, IndexOf(a, p).value);
  }

  lemma ContainsInBack(a: string, b: string, p: string)
    requires Contains(b, p)
    ensures Contains(a + b, p)
  {
    var j := IndexOf(b, p).value;
    assert (a + b)[|a| + j..|a| + j + |p|] == b[j..j + |p|];
    OccursContains(a + b, p, |a| + j);
  }

  lemma ContainsInConcat(a: string, b: string, c: string, p: string)
    requires Contains(b, p)
    ensures Contains(a + b + c, p)
  {
    var j := IndexOf(b, p).value;
    OccursInConcat(a, b, c, p, j);
    OccursContains(a + b + c, p, |a| + j);
  }

  /** An optional position moved `d` places to the right. */
  function ShiftBy(o: Option<nat>, d: nat): (r: Option<nat>)
    ensures r.Some? <==> o.Some?
    ensures r.Some? ==> r.value == o.value + d
  {
    match o
    case None => None
    case Some(v) => Some(v + d)
  }

  /** Cutting `a + b + c` at the two seams gives back the pieces. */
  lemma CutConcat(a: string, b: string, c: string)
    ensures (a + b + c)[..|a| + |b|] == a + b && (a + b + c)[|a| + |b|..] == c
    ensures (a + b + c)[..|a|] == a && (a + b + c)[|a|..] == b + c
  {
  }

  /** A slice of `b` is the same slice of `a + b`, shifted past `a`. */
  lemma SliceShift(a: string, b: string, i: int, j: int)
    requires 0 <= i <= j <= |b|
    ensures (a + b)[|a| + i..|a| + j] == b[i..j]
  {
  }

  /** Occurrences in `b` are the occurrences in `a + b` past `a`. */
  lemma OccursShift(a: string, b: string, p: string, j: nat)
    ensures OccursAt(a + b, p, |a| + j) <==> OccursAt(b, p, j)
  {
    if j + |p| <= |b| {
      assert (a + b)[|a| + j..|a| + j + |p|] == b[j..j + |p|];
    }
  }

  /** Searching `a + b` from a position inside `b` is searching `b`, shifted. */
  lemma IndexOfFromShift(a: string, b: string, p: string, from: nat)
    ensures IndexOfFrom(a + b, p, |a| + from) == ShiftBy(IndexOfFrom(b, p, from), |a|)
  {
    match IndexOfFrom(b, p, from)
    case Some(i) => IndexOfFromShiftFound(a, b, p, from, i);
    case None => IndexOfFromShiftMissing(a, b, p, from);
  }

  lemma IndexOfFromShiftFound(a: string, b: string, p: string, from: nat, i: nat)
    requires IndexOfFrom(b, p, from) == Some(i)
    ensures IndexOfFrom(a + b, p, |a| + from) == Some(|a| + i)
  {
    OccursShift(a, b, p, i);
    NoneBetweenShift(a, b, p, from, i);
    IndexOfFromIs(a + b, p, |a| + from, |a| + i);
  }

  lemma NoneBetweenShift(a: string, b: string, p: string, from: nat, i: nat)
    requires forall j :: from <= j < i ==> !OccursAt(b, p, j)
    ensures forall j :: |a| + from <= j < |a| + i ==> !OccursAt(a + b, p, j)
  {
    forall j | |a| + from <= j < |a| + i ensures !OccursAt(a + b, p, j) {
      OccursShift(a, b, p, j - |a|);
    }
  }

  lemma IndexOfFromShiftMissing(a: string, b: string, p: string, from: nat)
    requires IndexOfFrom(b, p, from).None?
    ensures IndexOfFrom(a + b, p, |a| + from).None?
  {
    var w := IndexOfFrom(a + b, p, |a| + from);
    if w.Some? {
      OccursShift(a, b, p, w.value - |a|);
    }
  }

  /** A stretch with no occurrence can be skipped by the search. */
  lemma IndexOfFromSkip(s: string, p: string, from: nat, to: nat)
    requires from <= to
    requires forall j :: from <= j < to ==> !OccursAt(s, p, j)
    ensures IndexOfFrom(s, p, from) == IndexOfFrom(s, p, to)
  {
    var r := IndexOfFrom(s, p, to);
    if r.Some? {
      IndexOfFromIs(s, p, from, r.value);
    }
  }

  /** A pattern cannot start inside a stretch that lacks its first character. */
  lemma NoLeadNoOccurrence(s: string, p: string, from: int, to: int)
    requires 0 <= from <= to <= |s| && p != [] && p[0] !in s[from..to]
    ensures forall j :: from <= j < to ==> !OccursAt(s, p, j)
  {
    forall j | from <= j < to ensures !OccursAt(s, p, j) {
      assert s[from..to][j - from] == s[j];
    }
  }

  /** A pattern cannot start anywhere its `t`-th character would fall outside the
      characters of the stretch `from + t .. to + t`. */
  lemma NoCharNoOccurrence(s: string, p: string, t: nat, from: int, to: int)
    requires t < |p| && 0 <= from <= to && to + t <= |s| && p[t] !in s[from + t..to + t]
    ensures forall j :: from <= j < to ==> !OccursAt(s, p, j)
  {
    forall j | from <= j < to ensures !OccursAt(s, p, j) {
      assert s[from + t..to + t][j - from] == s[j + t];
      OccursAtChar(s, p, j, j + t);
    }
  }

  /** A pattern with a character the text lacks does not occur in it. */
  lemma MissingCharNotContained(s: string, p: string, t: nat)
    requires t < |p| && p[t] !in s
    ensures !Contains(s, p)
  {
  }

  /** Where a pattern is first found after `x` is inserted at `k`: no occurrence
      lies wholly before `k`, none starts inside `x` before offset `d` (they lack
      the pattern's first character), none straddles the insertion point (the
      first character of `x` is not in the rest of the pattern), and there is one
      at offset `d` of `x`. */
  lemma SpliceFirst(s: string, k: nat, x: string, p: string, d: nat)
    requires k <= |s| && p != [] && x != [] && d <= |x|
    requires forall j :: 0 <= j && j + |p| <= k ==> !OccursAt(s, p, j)
    requires x[0] !in p[1..]
    requires p[0] !in x[..d]
    requires OccursAt(x, p, d)
    ensures IndexOf(s[..k] + x + s[k..], p) == Some(k + d)
  {
    var r := s[..k] + x + s[k..];
    forall j | 0 <= j < k + d ensures !OccursAt(r, p, j) {
      if j + |p| <= k {
        assert r[j..j + |p|] == s[j..j + |p|];
        assert !OccursAt(s, p, j);
      } else if j < k {
        assert r[k] == x[0];
        assert p[1..][k - j - 1] == p[k - j];
        OccursAtChar(r, p, j, k);
      } else {
        assert r[j] == x[..d][j - k];
        OccursAtChar(r, p, j, j);
      }
    }
    OccursInConcat(s[..k], x, s[k..], p, d);
    IndexOfFromIs(r, p, 0, k + d);
  }

  /** A one-character pattern not found between `from` and `stop` means the
      character is absent from that slice. */
  lemma CharAbsent(s: string, c: char, from: nat, stop: nat)
    requires from <= stop <= |s|
    requires forall j :: from <= j < stop ==> !OccursAt(s, [c], j)
    ensures c !in s[from..stop]
  {
    if c in s[from..stop] {
      var k :| 0 <= k < stop - from && s[from..stop][k] == c;
      assert s[from + k..from + k + 1] == [c];
      assert OccursAt(s, [c], from + k);
    }
  }

  /** `s[..k] + x + s[k..]`: `x` inserted at position `k`, the rest untouched. */
  function Splice(s: string, k: nat, x: string): (r: string)
    requires k <= |s|
    ensures |r| == |s| + |x|
    ensures r[..k] == s[..k] && r[k..k + |x|] == x && r[k + |x|..] == s[k..]
  {
    s[..k] + x + s[k..]
  }

  /** The span a lazy `OPEN[\s\S]*?CLOSE` regex matches first: `Some((i, j))` when
      it runs from the first `open`, at `i`, to the first `close` after it, at `j`.
      A later `open` cannot help: every `close` after it is also after the first. */
  function FirstSpan(s: string, open: string, close: string): (r: Option<(nat, nat)>)
    ensures r.Some? ==> var (i, j) := r.value;
      && OccursAt(s, open, i) && (forall k :: 0 <= k < i ==> !OccursAt(s, open, k))
      && i + |open| <= j && OccursAt(s, close, j)
      && (forall k :: i + |open| <= k < j ==> !OccursAt(s, close, k))
    ensures r.None? ==> forall i, j :: OccursAt(s, open, i) && i + |open| <= j ==> !OccursAt(s, close, j)
  {
    match IndexOf(s, open)
    case None => None
    case Some(i) =>
      match IndexOfFrom(s, close, i + |open|)
      case None => None
      case Some(j) => Some((i, j))
  }

  /** `s.replace(/OPEN[\s\S]*?CLOSE/, repl)` with `repl` taken literally. */
  function ReplaceFirstSpan(s: string, open: string, close: string, repl: string): (r: string)
    ensures FirstSpan(s, open, close).None? ==> r == s
    ensures FirstSpan(s, open, close).Some? ==> var (i, j) := FirstSpan(s, open, close).value;
      r == s[..i] + repl + s[j + |close|..]
  {
    match FirstSpan(s, open, close)
    case None => s
    case Some((i, j)) => s[..i] + repl + s[j + |close|..]
  }

  lemma ReplaceFirstSpanIs(s: string, open: string, close: string, repl: string, i: nat, j: nat)
    requires FirstSpan(s, open, close) == Some((i, j))
    ensures ReplaceFirstSpan(s, open, close, repl) == s[..i] + repl + s[j + |close|..]
  {
  }

  /** `s.replaceAll(c, rep)` for a one-character needle. */
  function ReplaceAll(s: string, c: char, rep: string): (r: string)
    ensures c !in rep ==> c !in r
  {
    if s == [] then []
    else (if s[0] == c then rep else [s[0]]) + ReplaceAll(s[1..], c, rep)
  }

  /** Replacing distributes over concatenation. */
  lemma {:induction false} ReplaceAllConcat(a: string, b: string, c: char, rep: string)
    ensures ReplaceAll(a + b, c, rep) == ReplaceAll(a, c, rep) + ReplaceAll(b, c, rep)
  {
    if a != [] {
      assert (a + b)[1..] == a[1..] + b;
      ReplaceAllConcat(a[1..], b, c, rep);
    } else {
      assert a + b == b;
    }
  }

  lemma ReplaceAllSingle(x: char, c: char, rep: string)
    ensures ReplaceAll([x], c, rep) == if x == c then rep else [x]
  {
    assert [x][1..] == [];
  }

  /** Replacing a character that does not occur changes nothing. */
  lemma {:induction false} ReplaceAllAbsent(s: string, c: char, rep: string)
    requires c !in s
    ensures ReplaceAll(s, c, rep) == s
  {
    if s != [] {
      assert c !in s[1..];
      ReplaceAllAbsent(s[1..], c, rep);
    }
  }

  /** `s.slice(0, n)`. */
  function Take(s: string, n: nat): (r: string)
    ensures |r| == if n < |s| then n else |s|
    ensures r <= s
  {
    if n < |s| then s[..n] else s
  }

  /** JavaScript's in-place `reverse()` of an array, as a value. */
  lemma ReverseCons<T>(s: seq<T>)
    requires s != []
    ensures Reverse(s) == Reverse(s[1..]) + [s[0]]
  {
  }

  function Reverse<T>(s: seq<T>): (r: seq<T>)
    ensures |r| == |s|
    ensures forall k :: 0 <= k < |s| ==> r[k] == s[|s| - 1 - k]
  {
    if s == [] then [] else Reverse(s[1..]) + [s[0]]
  }
}
