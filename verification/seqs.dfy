/** Rearrangements of sequences and maps that the proofs of the other
    modules cite by name. Stated once, for any element type, they give the
    solver each equation directly instead of leaving it to rediscover the
    equation from the axioms of sequences inside a larger proof. */
module Seqs {

  /** Appending one element, then more, is appending both at once. */
  lemma Shift<T>(res: seq<T>, x: T, tail: seq<T>)
    ensures (res + [x]) + tail == res + ([x] + tail)
  {
  }

  lemma HeadTail<T>(s: seq<T>)
    requires s != []
    ensures s == [s[0]] + s[1..]
  {
  }

  /** A sequence cut after its head and again at `n`. */
  lemma Rejoin<T>(s: seq<T>, n: nat)
    requires 1 <= n <= |s|
    ensures s == [s[0]] + s[1..n] + s[n..]
  {
  }

  /** The head, the next `n - 1` elements and the rest of `s[i..]`, read in
      `s` itself. */
  lemma DropSlices<T>(s: seq<T>, i: nat, n: nat)
    requires 0 < n && i + n <= |s|
    ensures s[i..][0] == s[i] && s[i..][1..n] == s[i + 1..i + n] && s[i..][n..] == s[i + n..]
  {
  }

  /** The first `n` elements of `x + z`, and the rest, when `n` falls in `x`. */
  lemma SliceConcat<T>(x: seq<T>, z: seq<T>, n: nat)
    requires n <= |x|
    ensures (x + z)[..n] == x[..n] && (x + z)[n..] == x[n..] + z
  {
  }

  /** The head and the tail of `x + z` for a nonempty `x`. */
  lemma TailConcat<T>(x: seq<T>, z: seq<T>)
    requires x != []
    ensures (x + z)[0] == x[0] && (x + z)[1..] == x[1..] + z
  {
  }

  lemma ConsAssoc<T>(w: T, a: seq<T>, b: seq<T>)
    ensures [w] + (a + b) == ([w] + a) + b
  {
  }

  /** `s[i..]` cut again at `n`. */
  lemma SliceSplit<T>(s: seq<T>, i: nat, n: nat)
    requires i <= n <= |s|
    ensures s[i..] == s[i..n] + s[n..]
  {
  }

  /** `x + [c, d] + w`, cut after `c` and again before `d`: the shape
      `x + [c] + y` at which `AsciiCut` splits, with `y` of the same shape
      `e + [d] + w` for the empty `e`, as `AsciiSpace` and `AsciiBang` require. */
  lemma PairAsTwo<T>(x: seq<T>, c: T, d: T, w: seq<T>)
    ensures x + [c, d] + w == x + [c] + ([] + [d] + w)
  {
  }

  /** `x + [b, c, d] + w`, cut after `b`: the shape `x + [b] + y` at which
      `AsciiCut` splits, with `y` written `e + [c, d] + w` for the empty `e`,
      the form `AsciiBang` requires. */
  lemma TripleAsTwo<T>(x: seq<T>, b: T, c: T, d: T, w: seq<T>)
    ensures x + [b, c, d] + w == x + [b] + ([] + [c, d] + w)
  {
  }

  /** A key written twice keeps the second value. */
  lemma Overwrite<K, V>(m: map<K, V>, k: K, v1: V, v2: V)
    ensures m[k := v1][k := v2] == m[k := v2]
  {
  }
}
