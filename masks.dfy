/**
 * Boolean masks over row-aligned sequences, with the meaning NumPy gives to
 * the element-wise comparison `v < c`, the negation `~m`, the selection
 * `s[m]` and the masked assignment `s[m] = x`.
 *
 * Masks are built from the back (the last element is appended last), so a
 * position keeps the same index in every prefix of the sequence.
 */
module Masks {

  /** `v < c`: compare every element of `v` with the scalar `c`. */
  function LessThan(v: seq<real>, c: real): (m: seq<bool>)
    ensures |m| == |v|
  {
    seq(|v|, i requires 0 <= i < |v| => v[i] < c)
  }

  /** `~m`: the element-wise negation of a mask. */
  function Not(m: seq<bool>): (r: seq<bool>)
    ensures |r| == |m|
  {
    seq(|m|, i requires 0 <= i < |m| => !m[i])
  }

  /** The positions at which `m` holds, in increasing order. */
  function TrueIndices(m: seq<bool>): (idx: seq<nat>)
    ensures |idx| <= |m|
    ensures forall k :: 0 <= k < |idx| ==> idx[k] < |m| && m[idx[k]]
    ensures forall j, k :: 0 <= j < k < |idx| ==> idx[j] < idx[k]
  {
    if |m| == 0 then []
    else TrueIndices(m[..|m| - 1]) + (if m[|m| - 1] then [|m| - 1] else [])
  }

  /** `s[m]`: the elements of `s` where `m` holds, in their original order. */
  function Select<T>(s: seq<T>, m: seq<bool>): (r: seq<T>)
    requires |s| == |m|
    ensures |r| == |TrueIndices(m)|
  {
    if |s| == 0 then []
    else Select(s[..|s| - 1], m[..|m| - 1]) + (if m[|m| - 1] then [s[|s| - 1]] else [])
  }

  /** `s[m] = x` applied to a copy of `s`: every masked position becomes `x`. */
  function Assign<T>(s: seq<T>, m: seq<bool>, x: T): (r: seq<T>)
    requires |s| == |m|
    ensures |r| == |s|
  {
    seq(|s|, i requires 0 <= i < |s| => if m[i] then x else s[i])
  }

  /** Every position where the mask holds is listed by TrueIndices. */
  lemma {:induction false} TrueIndicesComplete(m: seq<bool>, i: nat)
    requires i < |m| && m[i]
    ensures i in TrueIndices(m)
  {
    if i < |m| - 1 {
      TrueIndicesComplete(m[..|m| - 1], i);
    }
  }

  /** The k-th selected element is the element at the k-th masked position. */
  lemma {:induction false} SelectAt<T>(s: seq<T>, m: seq<bool>, k: nat)
    requires |s| == |m|
    requires k < |Select(s, m)|
    ensures Select(s, m)[k] == s[TrueIndices(m)[k]]
  {
    var n := |s| - 1;
    var front := Select(s[..n], m[..n]);
    if k < |front| {
      SelectAt(s[..n], m[..n], k);
    }
  }

  /** Extending a sequence and its mask by one element extends the selection by at most that element. */
  lemma SelectSnoc<T>(s: seq<T>, m: seq<bool>, x: T, b: bool)
    requires |s| == |m|
    ensures Select(s + [x], m + [b]) == Select(s, m) + (if b then [x] else [])
  {
  }

  lemma NotSnoc(m: seq<bool>, b: bool)
    ensures Not(m + [b]) == Not(m) + [!b]
  {
  }

  /** Selection by a mask and by its negation split `s` with nothing lost or repeated. */
  lemma {:induction false} SelectPartition<T>(s: seq<T>, m: seq<bool>)
    requires |s| == |m|
    ensures multiset(Select(s, m)) + multiset(Select(s, Not(m))) == multiset(s)
  {
    if |s| > 0 {
      var n := |s| - 1;
      var front, mask, x, b := s[..n], m[..n], s[n], m[n];
      assert s == front + [x] && m == mask + [b];
      SelectPartition(front, mask);
      NotSnoc(mask, b);
      SelectSnoc(front, mask, x, b);
      SelectSnoc(front, Not(mask), x, !b);
      assert (if !b then [x] else []) == (if b then [] else [x]);
      AddToPart(Select(front, mask), Select(front, Not(mask)), front, x, b);
    }
  }

  /** Adding one element to either part of a split adds it to the whole. */
  lemma AddToPart<T>(part: seq<T>, other: seq<T>, whole: seq<T>, x: T, first: bool)
    requires multiset(part) + multiset(other) == multiset(whole)
    ensures multiset(part + (if first then [x] else [])) + multiset(other + (if first then [] else [x]))
         == multiset(whole + [x])
  {
  }

  /** A mask and its negation together select every position exactly once. */
  lemma CountComplement(m: seq<bool>)
    ensures |TrueIndices(m)| + |TrueIndices(Not(m))| == |m|
  {
    SelectPartition(m, m);
    assert |multiset(Select(m, m)) + multiset(Select(m, Not(m)))| == |multiset(m)|;
  }

  /** Selection distributes over concatenation of row-aligned pieces. */
  lemma {:induction false} SelectAppend<T>(a: seq<T>, ma: seq<bool>, b: seq<T>, mb: seq<bool>)
    requires |a| == |ma| && |b| == |mb|
    ensures Select(a + b, ma + mb) == Select(a, ma) + Select(b, mb)
  {
    if |b| > 0 {
      var n := |b| - 1;
      assert (a + b)[..|a| + n] == a + b[..n];
      assert (ma + mb)[..|ma| + n] == ma + mb[..n];
      SelectAppend(a, ma, b[..n], mb[..n]);
    } else {
      assert a + b == a && ma + mb == ma;
    }
  }

  /** An element is selected exactly when it sits at some masked position. */
  lemma SelectMembership<T>(s: seq<T>, m: seq<bool>, x: T)
    requires |s| == |m|
    ensures x in Select(s, m) <==> exists i :: 0 <= i < |s| && m[i] && s[i] == x
  {
  }
}
