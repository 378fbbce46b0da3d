/** Order-preserving filtering of sequences, the behaviour of JavaScript's
    `Array.prototype.filter`, with the facts the roster needs about it. */
module Seqs {

  /** The elements of `s` that satisfy `p`, in their original order. */
  function Filter<T(!new)>(s: seq<T>, p: T -> bool): (r: seq<T>)
    ensures |r| <= |s|
  {
    if s == [] then []
    else (if p(s[0]) then [s[0]] else []) + Filter(s[1..], p)
  }

  /** The filter result holds exactly the input's elements that pass the test. */
  lemma {:induction false} FilterMembers<T(!new)>(s: seq<T>, p: T -> bool)
    ensures forall x :: x in Filter(s, p) <==> x in s && p(x)
  {
    if s != [] {
      FilterMembers(s[1..], p);
      assert s == [s[0]] + s[1..];
    }
  }

  /** `idx` lists, strictly increasing, positions of `s` whose elements form `r`. */
  ghost predicate Embeds<T>(idx: seq<nat>, r: seq<T>, s: seq<T>)
  {
    && |idx| == |r|
    && (forall i :: 0 <= i < |idx| ==> idx[i] < |s| && r[i] == s[idx[i]])
    && (forall i, j :: 0 <= i < j < |idx| ==> idx[i] < idx[j])
  }

  /** Shifts every position by one (the positions of a tail inside its list). */
  function Shift(idx: seq<nat>): (r: seq<nat>)
    ensures |r| == |idx| && forall i :: 0 <= i < |idx| ==> r[i] == idx[i] + 1
  {
    if idx == [] then [] else [idx[0] + 1] + Shift(idx[1..])
  }

  /** Positions of a tail, moved into the whole list, still embed the tail's subsequence. */
  lemma ShiftEmbeds<T>(tail: seq<nat>, r: seq<T>, s: seq<T>)
    requires s != [] && Embeds(tail, r, s[1..])
    ensures Embeds(Shift(tail), r, s)
  {
    var shifted := Shift(tail);
    forall i | 0 <= i < |shifted|
      ensures shifted[i] < |s| && r[i] == s[shifted[i]]
    {
      assert shifted[i] == tail[i] + 1;
      assert s[1..][tail[i]] == s[tail[i] + 1];
    }
    forall i, j | 0 <= i < j < |shifted|
      ensures shifted[i] < shifted[j]
    {
      assert tail[i] < tail[j];
    }
  }

  /** Position 0 can go in front of an embedding that does not use it. */
  lemma ConsEmbeds<T>(idx: seq<nat>, r: seq<T>, s: seq<T>)
    requires s != [] && Embeds(idx, r, s) && 0 !in idx
    ensures Embeds([0] + idx, [s[0]] + r, s)
  {
    var idx', r' := [0] + idx, [s[0]] + r;
    forall i | 0 < i < |idx'|
      ensures idx'[i] < |s| && r'[i] == s[idx'[i]]
    {
      assert idx'[i] == idx[i - 1] && r'[i] == r[i - 1];
    }
    forall i, j | 0 <= i < j < |idx'|
      ensures idx'[i] < idx'[j]
    {
      assert idx'[j] == idx[j - 1] && idx[j - 1] != 0;
      if i > 0 {
        assert idx'[i] == idx[i - 1];
      }
    }
  }

  /** A position at least one is a shifted position exactly when it is one past a tail position. */
  lemma ShiftMembers(tail: seq<nat>, j: nat)
    ensures j >= 1 ==> (j in Shift(tail) <==> j - 1 in tail)
    ensures 0 !in Shift(tail)
  {
    var shifted := Shift(tail);
    if j >= 1 && j in shifted {
      var i :| 0 <= i < |shifted| && shifted[i] == j;
      assert tail[i] == j - 1;
    }
    if j >= 1 && j - 1 in tail {
      var i :| 0 <= i < |tail| && tail[i] == j - 1;
      assert shifted[i] == j;
    }
  }

  /** The filter result is a subsequence of the input, and the positions it keeps
      are exactly the positions whose element satisfies the predicate. */
  lemma {:induction false} FilterPositions<T(!new)>(s: seq<T>, p: T -> bool) returns (idx: seq<nat>)
    ensures Embeds(idx, Filter(s, p), s)
    ensures forall j :: 0 <= j < |s| ==> (p(s[j]) <==> j in idx)
  {
    if s == [] {
      idx := [];
    } else {
      var tail := FilterPositions(s[1..], p);
      var rest := Filter(s[1..], p);
      var shifted := Shift(tail);
      ShiftEmbeds(tail, rest, s);
      ShiftMembers(tail, 0);
      if p(s[0]) {
        assert Filter(s, p) == [s[0]] + rest;
        ConsEmbeds(shifted, rest, s);
        idx := [0] + shifted;
      } else {
        assert Filter(s, p) == rest;
        idx := shifted;
      }
      forall j | 0 < j < |s|
        ensures p(s[j]) <==> j in idx
      {
        ShiftMembers(tail, j);
        assert s[j] == s[1..][j - 1];
      }
    }
  }

  /** Filtering distributes over concatenation. */
  lemma {:induction false} FilterConcat<T(!new)>(a: seq<T>, b: seq<T>, p: T -> bool)
    ensures Filter(a + b, p) == Filter(a, p) + Filter(b, p)
  {
    if a == [] {
      assert a + b == b;
    } else {
      var ab := a + b;
      var head := if p(a[0]) then [a[0]] else [];
      assert ab[0] == a[0] && ab[1..] == a[1..] + b;
      FilterConcat(a[1..], b, p);
      assert Filter(ab, p) == head + (Filter(a[1..], p) + Filter(b, p));
      assert Filter(a, p) == head + Filter(a[1..], p);
    }
  }

  /** A filter whose predicate holds of every element returns the input unchanged. */
  lemma {:induction false} FilterKeepsAll<T(!new)>(s: seq<T>, p: T -> bool)
    requires forall i :: 0 <= i < |s| ==> p(s[i])
    ensures Filter(s, p) == s
  {
    if s != [] {
      FilterKeepsAll(s[1..], p);
    }
  }

  /** Two filters in a row are one filter by the conjunction of their predicates. */
  lemma {:induction false} FilterTwice<T(!new)>(s: seq<T>, p: T -> bool, q: T -> bool, both: T -> bool)
    requires forall x :: both(x) == (p(x) && q(x))
    ensures Filter(Filter(s, p), q) == Filter(s, both)
  {
    if s != [] {
      FilterTwice(s[1..], p, q, both);
      var first := Filter(s, p);
      if p(s[0]) {
        assert first == [s[0]] + Filter(s[1..], p);
        assert first[0] == s[0] && first[1..] == Filter(s[1..], p);
      } else {
        assert first == Filter(s[1..], p);
      }
    }
  }

  /** Filters by predicates that agree everywhere agree. */
  lemma {:induction false} FilterSamePredicate<T(!new)>(s: seq<T>, p: T -> bool, q: T -> bool)
    requires forall x :: p(x) == q(x)
    ensures Filter(s, p) == Filter(s, q)
  {
    if s != [] {
      FilterSamePredicate(s[1..], p, q);
    }
  }

  /** Filtering out the one element that fails the test leaves the others as they were. */
  lemma {:induction false} FilterDropsOne<T(!new)>(before: seq<T>, x: T, after: seq<T>, p: T -> bool)
    requires forall i :: 0 <= i < |before| ==> p(before[i])
    requires forall i :: 0 <= i < |after| ==> p(after[i])
    requires !p(x)
    ensures Filter(before + [x] + after, p) == before + after
  {
    var whole := before + [x] + after;
    if before == [] {
      assert whole[0] == x && whole[1..] == after;
      FilterKeepsAll(after, p);
    } else {
      assert whole[0] == before[0] && p(before[0]);
      assert whole[1..] == before[1..] + [x] + after;
      FilterDropsOne(before[1..], x, after, p);
      assert before + after == [before[0]] + (before[1..] + after);
    }
  }
}
