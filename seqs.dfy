/** Sequence operations behind the task list: `Array.prototype.filter`, the
    subsequence relation it establishes, and the pair of `splice` calls that
    moves one element of an array to another position. */
module Seqs {

  /** `s.filter(p)`: the elements of `s` that satisfy `p`, in their order. */
  function Select<T(!new)>(s: seq<T>, p: T -> bool): (r: seq<T>)
    ensures |r| <= |s|
    ensures forall k :: 0 <= k < |r| ==> p(r[k])
  {
    if s == [] then [] else (if p(s[0]) then [s[0]] else []) + Select(s[1..], p)
  }

  /** Filtering a list with a head: the head if it passes, then the filtered rest. */
  lemma SelectCons<T(!new)>(x: T, s: seq<T>, p: T -> bool)
    ensures Select([x] + s, p) == (if p(x) then [x] else []) + Select(s, p)
  {
    assert ([x] + s)[1..] == s;
  }

  /** Filtering keeps every occurrence of an element that satisfies `p` and
      none of one that does not. */
  lemma {:induction false} SelectCount<T(!new)>(s: seq<T>, p: T -> bool)
    ensures forall x :: multiset(Select(s, p))[x] == if p(x) then multiset(s)[x] else 0
  {
    if s != [] {
      SelectCount(s[1..], p);
      assert s == [s[0]] + s[1..];
    }
  }

  /** `idx` lists, in increasing order, the positions of `b` at which the
      elements of `a` are found. */
  ghost predicate IsEmbedding<T>(idx: seq<nat>, a: seq<T>, b: seq<T>)
  {
    && |idx| == |a|
    && (forall k :: 0 <= k < |idx| ==> idx[k] < |b| && a[k] == b[idx[k]])
    && (forall k, l :: 0 <= k < l < |idx| ==> idx[k] < idx[l])
  }

  /** `a` is obtained from `b` by deleting elements: what remains keeps its relative order. */
  ghost predicate IsSubsequence<T>(a: seq<T>, b: seq<T>)
  {
    exists idx :: IsEmbedding(idx, a, b)
  }

  /** The positions of `s` that `Select(s, p)` keeps. */
  lemma {:induction false} SelectEmbedding<T(!new)>(s: seq<T>, p: T -> bool) returns (idx: seq<nat>)
    ensures IsEmbedding(idx, Select(s, p), s)
  {
    if s == [] {
      idx := [];
    } else {
      var tail := Select(s[1..], p);
      var rest := SelectEmbedding(s[1..], p);
      idx := EmbeddingInTail(rest, tail, s);
      if p(s[0]) {
        idx := EmbeddingCons(idx, tail, s);
      }
    }
  }

  /** An embedding into the tail of `b` shifts into an embedding into `b`. */
  lemma EmbeddingInTail<T>(idx: seq<nat>, a: seq<T>, b: seq<T>) returns (shifted: seq<nat>)
    requires b != [] && IsEmbedding(idx, a, b[1..])
    ensures IsEmbedding(shifted, a, b)
    ensures forall k :: 0 <= k < |shifted| ==> 0 < shifted[k]
  {
    shifted := seq(|idx|, k requires 0 <= k < |idx| => idx[k] + 1);
    forall k | 0 <= k < |shifted|
      ensures shifted[k] < |b| && a[k] == b[shifted[k]]
    {
      assert a[k] == b[1..][idx[k]];
    }
  }

  /** An embedding that avoids position 0 extends by the head of `b`. */
  lemma EmbeddingCons<T>(idx: seq<nat>, a: seq<T>, b: seq<T>) returns (idx': seq<nat>)
    requires b != [] && IsEmbedding(idx, a, b)
    requires forall k :: 0 <= k < |idx| ==> 0 < idx[k]
    ensures IsEmbedding(idx', [b[0]] + a, b)
  {
    idx' := [0] + idx;
  }

  /** Filtering keeps the surviving elements in their original relative order. */
  lemma SelectIsSubsequence<T(!new)>(s: seq<T>, p: T -> bool)
    ensures IsSubsequence(Select(s, p), s)
  {
    var idx := SelectEmbedding(s, p);
  }

  /** Being a subsequence is transitive. */
  lemma SubsequenceTransitive<T>(a: seq<T>, b: seq<T>, c: seq<T>)
    requires IsSubsequence(a, b) && IsSubsequence(b, c)
    ensures IsSubsequence(a, c)
  {
    var i1 :| IsEmbedding(i1, a, b);
    var i2 :| IsEmbedding(i2, b, c);
    var idx := seq(|i1|, k requires 0 <= k < |i1| => i2[i1[k]]);
    assert IsEmbedding(idx, a, c);
  }

  /** A filter that every element passes changes nothing. */
  lemma {:induction false} SelectAll<T(!new)>(s: seq<T>, p: T -> bool)
    requires forall k :: 0 <= k < |s| ==> p(s[k])
    ensures Select(s, p) == s
  {
    if s != [] {
      SelectAll(s[1..], p);
    }
  }

  /** Filtering twice with the same predicate is filtering once. */
  lemma SelectIdempotent<T(!new)>(s: seq<T>, p: T -> bool)
    ensures Select(Select(s, p), p) == Select(s, p)
  {
    SelectAll(Select(s, p), p);
  }

  /** `arr.splice(i, 1)`: the array without its element at `i`. */
  function Delete<T>(s: seq<T>, i: nat): (r: seq<T>)
    requires i < |s|
    ensures |r| == |s| - 1
    ensures forall k :: 0 <= k < |r| ==> r[k] == if k < i then s[k] else s[k + 1]
  {
    s[..i] + s[i + 1..]
  }

  /** `arr.splice(i, 0, x)`: the array with `x` placed at `i` and the elements from `i` on shifted right. */
  function Insert<T>(s: seq<T>, i: nat, x: T): (r: seq<T>)
    requires i <= |s|
    ensures |r| == |s| + 1 && r[i] == x
    ensures forall k :: 0 <= k < |r| && k != i ==> r[k] == if k < i then s[k] else s[k - 1]
  {
    s[..i] + [x] + s[i..]
  }

  /** The two splices of a drag-and-drop move: take out the element at `from`,
      then put it back at `to` in the shortened array. */
  function Moved<T>(s: seq<T>, from: nat, to: nat): (r: seq<T>)
    requires from < |s| && to < |s|
    ensures |r| == |s| && r[to] == s[from]
  {
    Insert(Delete(s, from), to, s[from])
  }

  /** A move is a permutation that puts the moved element at `to`. */
  lemma MovedPermutation<T>(s: seq<T>, from: nat, to: nat)
    requires from < |s| && to < |s|
    ensures |Moved(s, from, to)| == |s|
    ensures Moved(s, from, to)[to] == s[from]
    ensures multiset(Moved(s, from, to)) == multiset(s)
  {
    var rest := Delete(s, from);
    assert s == s[..from] + [s[from]] + s[from + 1..];
    assert rest == s[..from] + s[from + 1..];
    assert multiset(s) == multiset(rest) + multiset{s[from]};
    var m := Moved(s, from, to);
    assert m == rest[..to] + [s[from]] + rest[to..];
    assert rest == rest[..to] + rest[to..];
  }

  /** Apart from the moved element, a move keeps every element in its relative order. */
  lemma MovedKeepsOthersInOrder<T>(s: seq<T>, from: nat, to: nat)
    requires from < |s| && to < |s|
    ensures Delete(Moved(s, from, to), to) == Delete(s, from)
  {
    var rest := Delete(s, from);
    var m := Moved(s, from, to);
    assert m == rest[..to] + [s[from]] + rest[to..];
    assert m[..to] == rest[..to];
    assert m[to + 1..] == rest[to..];
    assert rest == rest[..to] + rest[to..];
  }

  /** Dragging the element back from `to` to `from` restores the original order. */
  lemma MovedInverse<T>(s: seq<T>, from: nat, to: nat)
    requires from < |s| && to < |s|
    ensures Moved(Moved(s, from, to), to, from) == s
  {
    var m := Moved(s, from, to);
    MovedKeepsOthersInOrder(s, from, to);
    assert m[to] == s[from];
    var rest := Delete(s, from);
    assert s == rest[..from] + [s[from]] + rest[from..];
  }

  /** Where each element of a moved array comes from. */
  lemma MovedAt<T>(s: seq<T>, from: nat, to: nat, k: nat)
    requires from < |s| && to < |s| && k < |s|
    ensures |Moved(s, from, to)| == |s|
    ensures Moved(s, from, to)[k] ==
      if k == to then s[from]
      else if from < to && from <= k < to then s[k + 1]
      else if to < from && to < k <= from then s[k - 1]
      else s[k]
  {
  }

  /** The drag-and-drop move performed in place on an array: the elements
      between the two positions shift by one towards `from`, and the moved
      element lands at `to`. */
  method MoveWithin<T>(a: array<T>, from: nat, to: nat)
    requires from < a.Length && to < a.Length
    modifies a
    ensures a[..] == Moved(old(a[..]), from, to)
  {
    var moved := a[from];
    var i := from;
    if from < to {
      while i < to
        invariant from <= i <= to
        invariant forall k :: 0 <= k < from ==> a[k] == old(a[k])
        invariant forall k :: from <= k < i ==> a[k] == old(a[k + 1])
        invariant forall k :: i <= k < a.Length ==> a[k] == old(a[k])
      {
        a[i] := a[i + 1];
        i := i + 1;
      }
    } else {
      while i > to
        invariant to <= i <= from
        invariant forall k :: 0 <= k <= i ==> a[k] == old(a[k])
        invariant forall k :: i < k <= from ==> a[k] == old(a[k - 1])
        invariant forall k :: from < k < a.Length ==> a[k] == old(a[k])
      {
        a[i] := a[i - 1];
        i := i - 1;
      }
    }
    a[to] := moved;
    ghost var s := old(a[..]);
    forall k | 0 <= k < a.Length
      ensures a[k] == Moved(s, from, to)[k]
    {
      MovedAt(s, from, to, k);
    }
  }
}
