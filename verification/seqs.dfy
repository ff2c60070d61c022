/** Order-preserving subsequences, used to say that a transform only deletes. */
module Seqs {

  /** `a` can be obtained from `b` by deleting elements, keeping the order. */
  predicate IsSubseq<T(==)>(a: seq<T>, b: seq<T>)
    decreases |b|
  {
    if a == [] then true
    else if b == [] then false
    else (a[0] == b[0] && IsSubseq(a[1..], b[1..])) || IsSubseq(a, b[1..])
  }

  lemma {:induction false} SubseqRefl<T>(a: seq<T>)
    ensures IsSubseq(a, a)
    decreases |a|
  {
    if a != [] {
      SubseqRefl(a[1..]);
    }
  }

  /** Keeping the head of both sides. */
  lemma SubseqCons<T>(x: T, a: seq<T>, b: seq<T>)
    requires IsSubseq(a, b)
    ensures IsSubseq([x] + a, [x] + b)
  {
    assert ([x] + a)[1..] == a;
    assert ([x] + b)[1..] == b;
  }

  /** Dropping the head of the larger side. */
  lemma SubseqDrop<T>(x: T, a: seq<T>, b: seq<T>)
    requires IsSubseq(a, b)
    ensures IsSubseq(a, [x] + b)
  {
    assert ([x] + b)[1..] == b;
  }

  /** Every element of a subsequence is an element of the sequence. */
  lemma {:induction false} SubseqMembers<T>(a: seq<T>, b: seq<T>, x: T)
    requires IsSubseq(a, b) && x in a
    ensures x in b
    decreases |b|
  {
    if b != [] {
      if a[0] == b[0] && IsSubseq(a[1..], b[1..]) {
        if x != a[0] {
          assert x in a[1..];
          SubseqMembers(a[1..], b[1..], x);
        }
      } else {
        SubseqMembers(a, b[1..], x);
      }
    }
  }

  /** A subsequence is never longer. */
  lemma {:induction false} SubseqLength<T>(a: seq<T>, b: seq<T>)
    requires IsSubseq(a, b)
    ensures |a| <= |b|
    decreases |b|
  {
    if a != [] {
      if a[0] == b[0] && IsSubseq(a[1..], b[1..]) {
        SubseqLength(a[1..], b[1..]);
      } else {
        SubseqLength(a, b[1..]);
      }
    }
  }

  /** The indices from `i` on whose flag is set, ascending. */
  function Positions(flags: seq<bool>, i: nat): seq<nat>
    requires i <= |flags|
    decreases |flags| - i
  {
    if i == |flags| then []
    else if flags[i] then [i] + Positions(flags, i + 1)
    else Positions(flags, i + 1)
  }

  /** Every listed index is set and at or after `i`. */
  lemma {:induction false} PositionsSound(flags: seq<bool>, i: nat)
    requires i <= |flags|
    ensures forall a :: 0 <= a < |Positions(flags, i)| ==>
      i <= Positions(flags, i)[a] < |flags| && flags[Positions(flags, i)[a]]
    decreases |flags| - i
  {
    if i < |flags| {
      PositionsSound(flags, i + 1);
      var f := Positions(flags, i);
      var fd := Positions(flags, i + 1);
      if flags[i] {
        assert f == [i] + fd;
        forall a | 0 <= a < |f| ensures i <= f[a] < |flags| && flags[f[a]] {
          if a > 0 {
            assert f[a] == fd[a - 1];
          }
        }
      }
    }
  }

  /** The indices are listed in increasing order. */
  lemma {:induction false} PositionsAscending(flags: seq<bool>, i: nat)
    requires i <= |flags|
    ensures forall a, b :: 0 <= a < b < |Positions(flags, i)| ==>
      Positions(flags, i)[a] < Positions(flags, i)[b]
    decreases |flags| - i
  {
    if i < |flags| {
      PositionsAscending(flags, i + 1);
      var f := Positions(flags, i);
      var fd := Positions(flags, i + 1);
      if flags[i] {
        PositionsSound(flags, i + 1);
        assert f == [i] + fd;
        forall a, b | 0 <= a < b < |f| ensures f[a] < f[b] {
          assert f[b] == fd[b - 1];
          if a > 0 {
            assert f[a] == fd[a - 1];
          }
        }
      }
    }
  }

  /** Every set index at or after `i` is listed. */
  lemma {:induction false} PositionsComplete(flags: seq<bool>, i: nat)
    requires i <= |flags|
    ensures forall k :: i <= k < |flags| && flags[k] ==> k in Positions(flags, i)
    decreases |flags| - i
  {
    if i < |flags| {
      PositionsComplete(flags, i + 1);
      var f := Positions(flags, i);
      var fd := Positions(flags, i + 1);
      if flags[i] {
        assert f == [i] + fd;
        forall k | i < k < |flags| && flags[k] ensures k in f {
          assert k in fd;
        }
      }
    }
  }
}
