/** Posting lists and the set algebra the query evaluator uses on them:
    intersection (`and_posting`), union (`or_posting`) and complement over
    the article universe (`reverse_posting`).

    A posting list is a sequence of article ids. The merges are written for
    strictly ascending operands; the functional definitions below follow the
    source's branches exactly, so they are total, and every semantic claim is
    stated under an `Increasing` hypothesis. */
module Postings {
  import opened Seqs

  /** Strictly ascending, hence duplicate-free. */
  predicate Increasing(p: seq<nat>) {
    forall i, j :: 0 <= i < j < |p| ==> p[i] < p[j]
  }

  /** Every id of `p` lies in the universe `[0, n)`. */
  predicate Below(p: seq<nat>, n: nat) {
    forall i :: 0 <= i < |p| ==> p[i] < n
  }

  /** The ids `0, 1, ..., n-1` in ascending order. */
  function Range(n: nat): (r: seq<nat>)
    ensures |r| == n
    ensures forall i :: 0 <= i < n ==> r[i] == i
  {
    seq(n, i => i)
  }

  /** Functional model of the two-pointer merge of `and_posting`: on equal
      heads emit once and advance both, otherwise advance the smaller. */
  function Intersect(p1: seq<nat>, p2: seq<nat>): (r: seq<nat>)
    ensures |r| <= |p1| && |r| <= |p2|
    ensures forall x :: x in r ==> x in p1 && x in p2
    decreases |p1| + |p2|
  {
    if p1 == [] || p2 == [] then []
    else if p1[0] == p2[0] then [p1[0]] + Intersect(p1[1..], p2[1..])
    else if p1[0] < p2[0] then Intersect(p1[1..], p2)
    else Intersect(p1, p2[1..])
  }

  /** Functional model of `or_posting`: the same merge, emitting the smaller
      head, and the remainder of whichever list is left appended as is. */
  function Union(p1: seq<nat>, p2: seq<nat>): (r: seq<nat>)
    ensures |r| <= |p1| + |p2|
    ensures forall x :: x in r <==> x in p1 || x in p2
    decreases |p1| + |p2|
  {
    if p1 == [] then p2
    else if p2 == [] then p1
    else if p1[0] == p2[0] then [p1[0]] + Union(p1[1..], p2[1..])
    else if p1[0] < p2[0] then [p1[0]] + Union(p1[1..], p2)
    else [p2[0]] + Union(p1, p2[1..])
  }

  /** `reverse_posting`: every id of `range(n)` that is not in `p`, in the
      order of `range(n)`. */
  function Complement(p: seq<nat>, n: nat): (r: seq<nat>)
    ensures Increasing(r) && Below(r, n)
    ensures forall x: nat :: x in r <==> x < n && x !in p
  {
    if n == 0 then []
    else Complement(p, n - 1) + (if n - 1 in p then [] else [n - 1])
  }

  /** Two ascending lists with the same members are the same list: the
      representation of a set as a posting list is unique. */
  lemma {:induction false} IncreasingUnique(a: seq<nat>, b: seq<nat>)
    requires Increasing(a) && Increasing(b)
    requires forall x :: x in a <==> x in b
    ensures a == b
    decreases |a|
  {
    if a != [] {
      assert a[0] in b;
    }
    if b != [] {
      assert b[0] in a;
    }
    if a != [] && b != [] {
      SameTails(a, b);
      IncreasingUnique(a[1..], b[1..]);
      HeadTail(a);
      HeadTail(b);
    }
  }

  /** Two ascending lists with the same members have the same head, and
      their tails again have the same members. */
  lemma SameTails(a: seq<nat>, b: seq<nat>)
    requires Increasing(a) && Increasing(b) && a != [] && b != []
    requires forall x :: x in a <==> x in b
    ensures a[0] == b[0] && Increasing(a[1..]) && Increasing(b[1..])
    ensures forall x :: x in a[1..] <==> x in b[1..]
  {
    assert a[0] in b && b[0] in a;
    HeadIsLeast(b, a[0]);
    HeadIsLeast(a, b[0]);
    forall x
      ensures x in a[1..] <==> x in b[1..]
    {
      if x in a[1..] {
        TailAbove(a, x);
        InTail(b, x);
      }
      if x in b[1..] {
        TailAbove(b, x);
        InTail(a, x);
      }
    }
  }

  /** A member other than the head is in the tail. */
  lemma InTail(p: seq<nat>, x: nat)
    requires p != [] && x in p && x != p[0]
    ensures x in p[1..]
  {
    var k :| 0 <= k < |p| && p[k] == x;
    assert p[1..][k - 1] == x;
  }

  /** `Below` speaks of members, not of places. */
  lemma BelowMembers(p: seq<nat>, n: nat)
    ensures Below(p, n) <==> forall x :: x in p ==> x < n
  {
    if forall x :: x in p ==> x < n {
      forall i | 0 <= i < |p|
        ensures p[i] < n
      {
        assert p[i] in p;
      }
    }
  }

  /** Every member of an ascending list is at least its head. */
  lemma HeadIsLeast(p: seq<nat>, x: nat)
    requires Increasing(p) && x in p
    ensures p[0] <= x
  {
    var k :| 0 <= k < |p| && p[k] == x;
  }

  /** On ascending operands the intersection is ascending and holds exactly
      the ids present in both. */
  lemma {:induction false} IntersectExact(p1: seq<nat>, p2: seq<nat>)
    requires Increasing(p1) && Increasing(p2)
    ensures Increasing(Intersect(p1, p2))
    ensures forall x :: x in Intersect(p1, p2) <==> x in p1 && x in p2
    decreases |p1| + |p2|
  {
    if p1 == [] || p2 == [] {
    } else if p1[0] == p2[0] {
      IntersectExact(p1[1..], p2[1..]);
      var t := Intersect(p1[1..], p2[1..]);
      forall x | x in p1 && x in p2
        ensures x in [p1[0]] + t
      {
        if x != p1[0] {
          HeadIsLeast(p1, x);
          assert x in p1[1..];
          HeadIsLeast(p2, x);
          assert x in p2[1..];
        }
      }
      forall i | 0 <= i < |t|
        ensures p1[0] < t[i]
      {
        assert t[i] in p1[1..];
      }
    } else if p1[0] < p2[0] {
      IntersectExact(p1[1..], p2);
      forall x | x in p1 && x in p2
        ensures x in p1[1..]
      {
        HeadIsLeast(p2, x);
      }
    } else {
      IntersectExact(p1, p2[1..]);
      forall x | x in p1 && x in p2
        ensures x in p2[1..]
      {
        HeadIsLeast(p1, x);
      }
    }
  }

  /** On ascending operands the union is ascending, so duplicate-free. */
  lemma {:induction false} UnionIncreasing(p1: seq<nat>, p2: seq<nat>)
    requires Increasing(p1) && Increasing(p2)
    ensures Increasing(Union(p1, p2))
    decreases |p1| + |p2|
  {
    if p1 == [] || p2 == [] {
    } else if p1[0] == p2[0] {
      UnionIncreasing(p1[1..], p2[1..]);
      UnionHeadBoth(p1, p2);
    } else if p1[0] < p2[0] {
      UnionIncreasing(p1[1..], p2);
      UnionHeadFirst(p1, p2);
    } else {
      UnionIncreasing(p1, p2[1..]);
      UnionHeadSecond(p1, p2);
    }
  }

  /** The steps of the lemma above, one per case of the merge. */
  lemma UnionHeadBoth(p1: seq<nat>, p2: seq<nat>)
    requires p1 != [] && p2 != [] && p1[0] == p2[0] && Increasing(p1) && Increasing(p2)
    requires Increasing(Union(p1[1..], p2[1..]))
    ensures Increasing(Union(p1, p2))
  {
    var t := Union(p1[1..], p2[1..]);
    assert Union(p1, p2) == [p1[0]] + t;
    forall x | x in t
      ensures p1[0] < x
    {
      if x in p1[1..] { TailAbove(p1, x); } else { TailAbove(p2, x); }
    }
    ConsIncreasing(p1[0], t);
  }

  lemma UnionHeadFirst(p1: seq<nat>, p2: seq<nat>)
    requires p1 != [] && p2 != [] && p1[0] < p2[0] && Increasing(p1) && Increasing(p2)
    requires Increasing(Union(p1[1..], p2))
    ensures Increasing(Union(p1, p2))
  {
    var t := Union(p1[1..], p2);
    assert Union(p1, p2) == [p1[0]] + t;
    forall x | x in t
      ensures p1[0] < x
    {
      if x in p1[1..] { TailAbove(p1, x); } else { HeadIsLeast(p2, x); }
    }
    ConsIncreasing(p1[0], t);
  }

  lemma UnionHeadSecond(p1: seq<nat>, p2: seq<nat>)
    requires p1 != [] && p2 != [] && p1[0] > p2[0] && Increasing(p1) && Increasing(p2)
    requires Increasing(Union(p1, p2[1..]))
    ensures Increasing(Union(p1, p2))
  {
    var t := Union(p1, p2[1..]);
    assert Union(p1, p2) == [p2[0]] + t;
    forall x | x in t
      ensures p2[0] < x
    {
      if x in p2[1..] { TailAbove(p2, x); } else { HeadIsLeast(p1, x); }
    }
    ConsIncreasing(p2[0], t);
  }

  /** Past the head, an ascending list holds only larger ids. */
  lemma TailAbove(p: seq<nat>, x: nat)
    requires Increasing(p) && p != [] && x in p[1..]
    ensures p[0] < x
  {
    var k :| 0 <= k < |p[1..]| && p[1..][k] == x;
    assert p[k + 1] == x;
  }

  lemma ConsIncreasing(h: nat, t: seq<nat>)
    requires Increasing(t) && forall x :: x in t ==> h < x
    ensures Increasing([h] + t)
  {
    forall i, j | 0 <= i < j < |[h] + t|
      ensures ([h] + t)[i] < ([h] + t)[j]
    {
      assert ([h] + t)[j] == t[j - 1];
      if i > 0 {
        assert ([h] + t)[i] == t[i - 1];
      } else {
        assert t[j - 1] in t;
      }
    }
  }

  /** The remainder left once one operand is exhausted is appended
      unchanged: if every id of `p2` precedes every id of `t`, the tail `t`
      of the first operand comes out verbatim at the end of the union. */
  lemma {:induction false} UnionAppendsTail(p1: seq<nat>, t: seq<nat>, p2: seq<nat>)
    requires forall i, j :: 0 <= i < |p2| && 0 <= j < |t| ==> p2[i] < t[j]
    ensures Union(p1 + t, p2) == Union(p1, p2) + t
    decreases |p1| + |p2|
  {
    if p2 == [] {
    } else if p1 == [] {
      if t != [] {
        assert p2[0] < t[0];
        UnionAppendsTail([], t, p2[1..]);
        assert Union([], p2[1..]) == p2[1..];
        assert p2 == [p2[0]] + p2[1..];
      }
    } else {
      TailConcat(p1, t);
      UnionFront(p1 + t, p2);
      UnionFront(p1, p2);
      if p1[0] == p2[0] {
        UnionAppendsTail(p1[1..], t, p2[1..]);
        ConsAssoc(p1[0], Union(p1[1..], p2[1..]), t);
      } else if p1[0] < p2[0] {
        UnionAppendsTail(p1[1..], t, p2);
        ConsAssoc(p1[0], Union(p1[1..], p2), t);
      } else {
        UnionAppendsTail(p1, t, p2[1..]);
        ConsAssoc(p2[0], Union(p1, p2[1..]), t);
      }
    }
  }

  /** Intersection and union are commutative on posting lists, although the
      merge walks its operands asymmetrically. */
  lemma Commutative(p1: seq<nat>, p2: seq<nat>)
    requires Increasing(p1) && Increasing(p2)
    ensures Intersect(p1, p2) == Intersect(p2, p1)
    ensures Union(p1, p2) == Union(p2, p1)
  {
    IntersectExact(p1, p2);
    IntersectExact(p2, p1);
    IncreasingUnique(Intersect(p1, p2), Intersect(p2, p1));
    UnionIncreasing(p1, p2);
    UnionIncreasing(p2, p1);
    IncreasingUnique(Union(p1, p2), Union(p2, p1));
  }

  /** Intersection and union are associative on posting lists. */
  lemma Associative(p1: seq<nat>, p2: seq<nat>, p3: seq<nat>)
    requires Increasing(p1) && Increasing(p2) && Increasing(p3)
    ensures Intersect(Intersect(p1, p2), p3) == Intersect(p1, Intersect(p2, p3))
    ensures Union(Union(p1, p2), p3) == Union(p1, Union(p2, p3))
  {
    IntersectExact(p1, p2);
    IntersectExact(p2, p3);
    IntersectExact(Intersect(p1, p2), p3);
    IntersectExact(p1, Intersect(p2, p3));
    IncreasingUnique(Intersect(Intersect(p1, p2), p3), Intersect(p1, Intersect(p2, p3)));
    UnionIncreasing(p1, p2);
    UnionIncreasing(p2, p3);
    UnionIncreasing(Union(p1, p2), p3);
    UnionIncreasing(p1, Union(p2, p3));
    IncreasingUnique(Union(Union(p1, p2), p3), Union(p1, Union(p2, p3)));
  }

  /** Combining a list with itself gives it back, ascending or not. */
  lemma {:induction false} Idempotent(p: seq<nat>)
    ensures Intersect(p, p) == p
    ensures Union(p, p) == p
  {
    if p != [] {
      Idempotent(p[1..]);
      assert p == [p[0]] + p[1..];
    }
  }

  /** NOT of the empty list is the whole universe, and NOT of the whole
      universe is empty. */
  lemma ComplementBounds(n: nat)
    ensures Complement([], n) == Range(n)
    ensures Complement(Range(n), n) == []
  {
    var r := Range(n);
    assert Increasing(r);
    forall x: nat
      ensures x in Complement([], n) <==> x in r
    {
      if x < n {
        assert r[x] == x;
      }
    }
    IncreasingUnique(Complement([], n), r);
    forall x: nat | x < n
      ensures x in r
    {
      assert r[x] == x;
    }
    IncreasingUnique(Complement(r, n), []);
  }

  /** Complementing twice over the same universe gives back any in-range
      posting list. */
  lemma ComplementInvolutive(p: seq<nat>, n: nat)
    requires Increasing(p) && Below(p, n)
    ensures Complement(Complement(p, n), n) == p
  {
    IncreasingUnique(Complement(Complement(p, n), n), p);
  }

  /** `and_posting`, as the source's while loop over two indices. */
  method AndPosting(p1: seq<nat>, p2: seq<nat>) returns (res: seq<nat>)
    ensures res == Intersect(p1, p2)
    ensures |res| <= |p1| && |res| <= |p2|
    ensures Increasing(p1) && Increasing(p2) ==>
              Increasing(res) && forall x :: x in res <==> x in p1 && x in p2
  {
    res := [];
    var i, j := 0, 0;
    while i < |p1| && j < |p2|
      invariant 0 <= i <= |p1| && 0 <= j <= |p2|
      invariant res + Intersect(p1[i..], p2[j..]) == Intersect(p1, p2)
      decreases |p1| - i + |p2| - j
    {
      assert p1[i..][1..] == p1[i + 1..] && p2[j..][1..] == p2[j + 1..];
      if p1[i] == p2[j] {
        res := res + [p1[i]];
        i, j := i + 1, j + 1;
      } else if p1[i] <= p2[j] {
        i := i + 1;
      } else {
        j := j + 1;
      }
    }
    if Increasing(p1) && Increasing(p2) {
      IntersectExact(p1, p2);
    }
  }

  /** `or_posting`, as the source's while loop followed by the two loops that
      append the leftover of each operand. */
  method OrPosting(p1: seq<nat>, p2: seq<nat>) returns (res: seq<nat>)
    ensures res == Union(p1, p2)
    ensures forall x :: x in res <==> x in p1 || x in p2
    ensures Increasing(p1) && Increasing(p2) ==> Increasing(res)
  {
    var i, j;
    res, i, j := MergeBoth(p1, p2);
    res := AppendFrom(res, p1, i);
    res := AppendFrom(res, p2, j);
    assert p1[i..] == [] || p2[j..] == [];
    if Increasing(p1) && Increasing(p2) {
      UnionIncreasing(p1, p2);
    }
  }

  /** One step of the merge of two nonempty lists. */
  lemma UnionFront(q1: seq<nat>, q2: seq<nat>)
    requires q1 != [] && q2 != []
    ensures Union(q1, q2) ==
            if q1[0] == q2[0] then [q1[0]] + Union(q1[1..], q2[1..])
            else if q1[0] < q2[0] then [q1[0]] + Union(q1[1..], q2)
            else [q2[0]] + Union(q1, q2[1..])
  {
  }

  /** One step of the merge on the remaining suffixes. */
  lemma MergeStep(p1: seq<nat>, p2: seq<nat>, i: nat, j: nat)
    requires i < |p1| && j < |p2|
    ensures Union(p1[i..], p2[j..]) ==
            if p1[i] == p2[j] then [p1[i]] + Union(p1[i + 1..], p2[j + 1..])
            else if p1[i] < p2[j] then [p1[i]] + Union(p1[i + 1..], p2[j..])
            else [p2[j]] + Union(p1[i..], p2[j + 1..])
  {
    DropSlices(p1, i, 1);
    DropSlices(p2, j, 1);
  }

  /** The first loop of `or_posting`: merge while both operands have ids
      left; at exit one of them is used up. */
  method MergeBoth(p1: seq<nat>, p2: seq<nat>) returns (res: seq<nat>, i: nat, j: nat)
    ensures i <= |p1| && j <= |p2| && (i == |p1| || j == |p2|)
    ensures res + Union(p1[i..], p2[j..]) == Union(p1, p2)
  {
    res := [];
    i, j := 0, 0;
    while i < |p1| && j < |p2|
      invariant 0 <= i <= |p1| && 0 <= j <= |p2|
      invariant res + Union(p1[i..], p2[j..]) == Union(p1, p2)
      decreases |p1| - i + |p2| - j
    {
      MergeStep(p1, p2, i, j);
      if p1[i] == p2[j] {
        Shift(res, p1[i], Union(p1[i + 1..], p2[j + 1..]));
        res := res + [p1[i]];
        i, j := i + 1, j + 1;
      } else if p1[i] <= p2[j] {
        Shift(res, p1[i], Union(p1[i + 1..], p2[j..]));
        res := res + [p1[i]];
        i := i + 1;
      } else {
        Shift(res, p2[j], Union(p1[i..], p2[j + 1..]));
        res := res + [p2[j]];
        j := j + 1;
      }
    }
  }

  /** One of the trailing loops of `or_posting`: append `p[from..]`. */
  method AppendFrom(acc: seq<nat>, p: seq<nat>, from: nat) returns (res: seq<nat>)
    requires from <= |p|
    ensures res == acc + p[from..]
  {
    res := acc;
    for k := from to |p|
      invariant res == acc + p[from..k]
    {
      res := res + [p[k]];
    }
  }
}
