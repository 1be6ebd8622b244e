/** Small sequence utilities shared by the account, wheel and admin modules. */
module Util {

  datatype Option<+T> = None | Some(value: T)

  /** The index JavaScript's `Array.prototype.findIndex` returns, or None where it returns -1:
      the first position whose element satisfies `p`. `find` is this index's element. */
  function FirstIndex<T>(s: seq<T>, p: T -> bool): (r: Option<nat>)
    ensures r.Some? ==> r.value < |s| && p(s[r.value])
    ensures r.Some? ==> forall j :: 0 <= j < r.value ==> !p(s[j])
    ensures r.None? <==> forall j :: 0 <= j < |s| ==> !p(s[j])
  {
    if |s| == 0 then None
    else if p(s[0]) then Some(0)
    else match FirstIndex(s[1..], p)
      case None => None
      case Some(k) => Some(k + 1)
  }

  /** An element appended to a sequence with no match is the first match. */
  lemma FirstIndexOfAppended<T>(s: seq<T>, x: T, p: T -> bool)
    requires forall j :: 0 <= j < |s| ==> !p(s[j])
    requires p(x)
    ensures FirstIndex(s + [x], p) == Some(|s|)
  {
    var t := s + [x];
    assert forall j :: 0 <= j < |s| ==> t[j] == s[j];
    assert t[|s|] == x;
  }

  /** `a` is obtained from `b` by deleting elements, keeping the order of the rest. */
  predicate IsSubsequence<T(==)>(a: seq<T>, b: seq<T>)
    decreases |b|
  {
    if a == [] then true
    else if b == [] then false
    else if a[0] == b[0] then IsSubsequence(a[1..], b[1..])
    else IsSubsequence(a, b[1..])
  }

  /** The first `n` elements of `s`, or all of `s` when it is shorter. */
  function Take<T>(s: seq<T>, n: nat): (r: seq<T>)
    ensures |r| == if |s| <= n then |s| else n
    ensures r == s[..|r|]
  {
    if |s| <= n then s else s[..n]
  }

  function Reverse<T>(s: seq<T>): (r: seq<T>)
    ensures |r| == |s|
    ensures forall k :: 0 <= k < |s| ==> r[k] == s[|s| - 1 - k]
  {
    if s == [] then [] else Reverse(s[1..]) + [s[0]]
  }

  /** A prefix of a suffix is a slice. */
  lemma PrefixOfSuffix<T>(s: seq<T>, i: nat, n: nat)
    requires i + n <= |s|
    ensures s[i..][..n] == s[i..i + n]
  {
  }

  /** Splitting the first element off a concatenation. */
  lemma ConsConcat<T>(x: seq<T>, a: seq<T>)
    requires x != []
    ensures x + a == [x[0]] + (x[1..] + a)
  {
    assert x == [x[0]] + x[1..];
  }

  /** One element in front of `a`: it is the head and `a` the tail. */
  lemma SingletonConcat<T>(c: seq<T>, a: seq<T>)
    requires |c| == 1
    ensures (c + a)[0] == c[0] && (c + a)[1..] == a
  {
  }

  lemma PrefixOfConcat<T>(a: seq<T>, b: seq<T>)
    ensures (a + b)[..|a|] == a
  {
  }

  lemma IndexOfSuffix<T>(s: seq<T>, i: nat, k: nat)
    requires i <= k < |s|
    ensures s[i..][k - i] == s[k]
  {
  }

  lemma ConcatAssoc<T>(a: seq<T>, b: seq<T>, c: seq<T>)
    ensures a + b + c == a + (b + c)
  {
  }

  /** The multiset of a non-empty sequence: its head and the multiset of its tail. */
  lemma MultisetOfCons<T>(s: seq<T>)
    requires s != []
    ensures multiset(s) == multiset{s[0]} + multiset(s[1..])
  {
    assert s == [s[0]] + s[1..];
  }

  lemma EmptyAround<T>(x: seq<T>)
    ensures [] + [] + x + [] == x
  {
  }

  lemma EmptyAfter<T>(x: seq<T>)
    ensures x + [] == x
  {
  }

  lemma EmptyInFront<T>(a: seq<T>, b: seq<T>, c: seq<T>)
    ensures [] + a + b + c == a + (b + c)
  {
  }

  /** `q` occurs in `s` starting at position `i`. */
  predicate OccursAt<T(==)>(s: seq<T>, q: seq<T>, i: int) {
    0 <= i <= |s| - |q| && s[i..i + |q|] == q
  }

  /** A prefix `r` of a suffix `left` of `s` occurs in `s` where `left` starts. */
  lemma SliceOfPrefixOfSuffix<T>(s: seq<T>, left: seq<T>, r: seq<T>)
    requires |left| <= |s| && left == s[|s| - |left|..]
    requires |r| <= |left| && r == left[..|r|]
    ensures OccursAt(s, r, |s| - |left|)
  {
    PrefixOfSuffix(s, |s| - |left|, |r|);
  }

  /** The first `n` elements of the reversal are the reversal of the last `n`. */
  lemma {:induction false} ReverseOfSuffix<T>(s: seq<T>, n: nat)
    requires n <= |s|
    ensures Reverse(s)[..n] == Reverse(s[|s| - n..])
  {
    var t := s[|s| - n..];
    var a, b := Reverse(s)[..n], Reverse(t);
    forall k | 0 <= k < n ensures a[k] == b[k] {
      assert a[k] == Reverse(s)[k] == s[|s| - 1 - k];
      assert b[k] == t[n - 1 - k];
    }
  }

  /** Taking a prefix of a prefix: the inner cut does not matter once the outer one is at most as long. */
  lemma TakeOfConcatTake<T>(a: seq<T>, b: seq<T>, n: nat)
    ensures Take(a + Take(b, n), n) == Take(a + b, n)
  {
    var lhs, rhs := Take(a + Take(b, n), n), Take(a + b, n);
    assert |lhs| == |rhs|;
    forall k | 0 <= k < |lhs| ensures lhs[k] == rhs[k] {
      if k >= |a| {
        assert lhs[k] == Take(b, n)[k - |a|];
      }
    }
  }
}
