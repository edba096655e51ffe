/** Generic facts about sequences used by every other module: concatenation of
    nested sequences, order-preserving filtering, and counting arguments over
    index ranges. */
module Seqs {

  /** The concatenation of `ss` in order (what `flat_map(|x| x.iter().cloned())` collects). */
  function Flatten<T>(ss: seq<seq<T>>): seq<T>
  {
    if ss == [] then [] else Flatten(ss[..|ss| - 1]) + ss[|ss| - 1]
  }

  /** Sum of the lengths of the inner sequences. */
  function SumLengths<T>(ss: seq<seq<T>>): nat
  {
    if ss == [] then 0 else SumLengths(ss[..|ss| - 1]) + |ss[|ss| - 1]|
  }

  /** Where the `k`-th inner sequence starts inside `Flatten(ss)`. */
  function Offset<T>(ss: seq<seq<T>>, k: nat): nat
    requires k <= |ss|
  {
    |Flatten(ss[..k])|
  }

  lemma {:induction false} FlattenLength<T>(ss: seq<seq<T>>)
    ensures |Flatten(ss)| == SumLengths(ss)
  {
    if ss != [] {
      FlattenLength(ss[..|ss| - 1]);
    }
  }

  lemma FlattenSnoc<T>(ss: seq<seq<T>>, k: nat)
    requires k < |ss|
    ensures Flatten(ss[..k + 1]) == Flatten(ss[..k]) + ss[k]
  {
    assert ss[..k + 1][..k] == ss[..k];
  }

  /** Every inner element sits at its offset, and the inner sequences follow each other in order. */
  lemma {:induction false} FlattenAt<T>(ss: seq<seq<T>>, k: nat, j: nat)
    requires k < |ss| && j < |ss[k]|
    ensures Offset(ss, k) + |ss[k]| <= |Flatten(ss)|
    ensures Flatten(ss)[Offset(ss, k) + j] == ss[k][j]
  {
    FlattenSnoc(ss, k);
    if k + 1 < |ss| {
      FlattenAt(ss[..|ss| - 1], k, j);
      assert ss[..|ss| - 1][..k] == ss[..k];
      assert ss[..|ss| - 1][..k + 1] == ss[..k + 1];
    } else {
      assert ss[..k + 1] == ss;
    }
  }

  /** Offsets grow by the length of each inner sequence: an earlier inner sequence ends before a later one starts. */
  lemma {:induction false} OffsetMonotone<T>(ss: seq<seq<T>>, i: nat, j: nat)
    requires i < j <= |ss|
    ensures Offset(ss, i) + |ss[i]| <= Offset(ss, j)
    decreases j - i
  {
    FlattenSnoc(ss, i);
    if i + 1 < j {
      OffsetMonotone(ss, i + 1, j);
    }
  }

  /** The slice of `Flatten(ss)` that belongs to the `k`-th inner sequence is that sequence. */
  lemma FlattenSlice<T>(ss: seq<seq<T>>, k: nat)
    requires k < |ss|
    ensures Offset(ss, k) + |ss[k]| == Offset(ss, k + 1) <= |Flatten(ss)|
    ensures Flatten(ss)[Offset(ss, k)..Offset(ss, k + 1)] == ss[k]
  {
    FlattenSnoc(ss, k);
    if k + 1 < |ss| {
      OffsetMonotone(ss, k + 1, |ss|);
    }
    assert ss[..|ss|] == ss;
    forall j | 0 <= j < |ss[k]|
      ensures Flatten(ss)[Offset(ss, k) + j] == ss[k][j]
    {
      FlattenAt(ss, k, j);
    }
  }

  /** Every position of `Flatten(ss)` lies inside exactly one inner sequence, at its offset. */
  lemma {:induction false} FlattenLocate<T>(ss: seq<seq<T>>, n: nat) returns (k: nat, p: nat)
    requires n < |Flatten(ss)|
    ensures k < |ss| && p < |ss[k]| && n == Offset(ss, k) + p
  {
    var last := |ss| - 1;
    FlattenSnoc(ss, last);
    assert ss[..last + 1] == ss;
    if n >= Offset(ss, last) {
      k, p := last, n - Offset(ss, last);
    } else {
      k, p := FlattenLocate(ss[..last], n);
      assert ss[..last][..k] == ss[..k];
    }
  }

  lemma {:induction false} FlattenOfEmpties<T>(ss: seq<seq<T>>)
    requires forall k :: 0 <= k < |ss| ==> ss[k] == []
    ensures Flatten(ss) == []
  {
    if ss != [] {
      FlattenOfEmpties(ss[..|ss| - 1]);
    }
  }

  /** Appending one element to one inner sequence adds exactly that element to the flattened multiset. */
  lemma {:induction false} FlattenAppendAt<T>(ss: seq<seq<T>>, k: nat, x: T)
    requires k < |ss|
    ensures multiset(Flatten(ss[k := ss[k] + [x]])) == multiset(Flatten(ss)) + multiset{x}
  {
    var ss' := ss[k := ss[k] + [x]];
    var n := |ss|;
    if k == n - 1 {
      assert ss'[..n - 1] == ss[..n - 1];
    } else {
      FlattenAppendAt(ss[..n - 1], k, x);
      assert ss'[..n - 1] == ss[..n - 1][k := ss[k] + [x]];
    }
  }

  /** Appending the head of `w` and then its tail appends `w`. */
  lemma AppendHeadTail<T>(a: seq<T>, w: seq<T>)
    requires w != []
    ensures a + [w[0]] + w[1..] == a + w
  {
    assert w == [w[0]] + w[1..];
  }

  /** `r` can be obtained from `s` by deleting elements (order kept). */
  predicate IsSubsequence<T(==)>(r: seq<T>, s: seq<T>)
    decreases |s|
  {
    if r == [] then true
    else if s == [] then false
    else if r[|r| - 1] == s[|s| - 1] then IsSubsequence(r[..|r| - 1], s[..|s| - 1])
    else IsSubsequence(r, s[..|s| - 1])
  }

  /** The elements of `s` that satisfy `p`, in their original order (`iter().filter(p).collect()`). */
  function Filter<T(==,!new)>(s: seq<T>, p: T -> bool): (r: seq<T>)
    ensures IsSubsequence(r, s)
    ensures forall x :: x in r ==> p(x)
    ensures forall x :: p(x) ==> multiset(r)[x] == multiset(s)[x]
  {
    if s == [] then []
    else
      var rest := Filter(s[..|s| - 1], p);
      assert s == s[..|s| - 1] + [s[|s| - 1]];
      if p(s[|s| - 1]) then rest + [s[|s| - 1]] else rest
  }

  /** Taking out position `j` removes exactly one occurrence of the element there. */
  lemma MultisetRemove<T>(s: seq<T>, j: nat)
    requires j < |s|
    ensures multiset(s) == multiset(s[..j] + s[j + 1..]) + multiset{s[j]}
  {
    assert s == s[..j] + [s[j]] + s[j + 1..];
  }

  /** No element occurs twice. */
  predicate Distinct<T(==)>(s: seq<T>)
  {
    forall i, j :: 0 <= i < j < |s| ==> s[i] != s[j]
  }

  /** The natural numbers below `n`. */
  function Below(n: nat): (r: set<nat>)
    ensures forall x: nat :: x in r <==> x < n
    ensures |r| == n
  {
    if n == 0 then {} else Below(n - 1) + {n - 1}
  }

  /** A subset is no larger than its superset, and strictly smaller when it misses `v`. */
  lemma {:induction false} SubsetCard<T>(a: set<T>, b: set<T>, v: T)
    requires a <= b && v in b && v !in a
    ensures |a| < |b|
  {
    var b' := b - {v};
    assert a <= b';
    assert |b'| == |b| - 1;
    SubsetLe(a, b');
  }

  lemma {:induction false} SubsetLe<T>(a: set<T>, b: set<T>)
    requires a <= b
    ensures |a| <= |b|
    decreases |b|
  {
    if a != {} {
      var x :| x in a;
      SubsetLe(a - {x}, b - {x});
    }
  }

  lemma {:induction false} CardDistinct<T>(s: seq<T>)
    requires Distinct(s)
    ensures |set x | x in s| == |s|
  {
    if s != [] {
      var init := s[..|s| - 1];
      CardDistinct(init);
      assert (set x | x in s) == (set x | x in init) + {s[|s| - 1]};
    }
  }

  /** A duplicate-free sequence of `n` numbers below `n` holds every number below `n`. */
  lemma DistinctBelowCovers(s: seq<nat>, n: nat)
    requires |s| == n && Distinct(s)
    requires forall i :: 0 <= i < |s| ==> s[i] < n
    ensures forall v: nat :: v < n ==> v in s
  {
    CardDistinct(s);
    var elems := set x | x in s;
    assert elems <= Below(n);
    forall v: nat | v < n
      ensures v in s
    {
      if v !in elems {
        SubsetCard(elems, Below(n), v);
      }
    }
  }

  /** A duplicate-free sequence of numbers below `n` is no longer than `n`; a shorter one misses some number. */
  lemma DistinctBelowMisses(s: seq<nat>, n: nat) returns (v: nat)
    requires |s| < n && Distinct(s)
    ensures v < n && v !in s
  {
    CardDistinct(s);
    var elems := set x | x in s;
    if Below(n) <= elems {
      SubsetLe(Below(n), elems);
      assert false;
    }
    assert exists w :: w in Below(n) && w !in elems;
    var w :| w in Below(n) && w !in elems;
    v := w;
  }

  /** Pigeonhole: more than `n` numbers below `n` repeat one. */
  lemma Pigeonhole(s: seq<nat>, n: nat) returns (a: nat, b: nat)
    requires |s| > n
    requires forall i :: 0 <= i < |s| ==> s[i] < n
    ensures a < b < |s| && s[a] == s[b]
  {
    if Distinct(s) {
      CardDistinct(s);
      var elems := set x | x in s;
      assert elems <= Below(n);
      SubsetLe(elems, Below(n));
      assert false;
    }
    a, b :| 0 <= a < b < |s| && s[a] == s[b];
  }
}
