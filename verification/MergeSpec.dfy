/** Bottom-up mergesort on sequences: what the passes of 2PCKVStore/utlist.h compute. */
module MergeSpec {
  import opened Basics

  /** Elements of a first when the order does not tell them apart. */
  function Merge<E>(a: seq<E>, b: seq<E>, le: (E, E) -> bool): (r: seq<E>)
    ensures |r| == |a| + |b|
    decreases |a| + |b|
  {
    if a == [] then b
    else if b == [] then a
    else if le(a[0], b[0]) then [a[0]] + Merge(a[1..], b, le)
    else [b[0]] + Merge(a, b[1..], le)
  }

  /** One pass: successive runs of length k are merged in pairs. */
  function Pass<E>(s: seq<E>, k: nat, le: (E, E) -> bool): (r: seq<E>)
    requires k >= 1
    ensures |r| == |s|
    decreases |s|
  {
    if s == [] then []
    else
      var i, j := Min(k, |s|), Min(2 * k, |s|);
      Merge(s[..i], s[i..j], le) + Pass(s[j..], k, le)
  }

  /** Passes of doubling width until one merge suffices. */
  function BottomUp<E>(s: seq<E>, k: nat, le: (E, E) -> bool): (r: seq<E>)
    requires k >= 1
    ensures |r| == |s|
    decreases |s| - k
  {
    if |s| <= 2 * k then Pass(s, k, le) else BottomUp(Pass(s, k, le), 2 * k, le)
  }

  // ---------- sorted ----------

  /** A total preorder on the elements of u. */
  ghost predicate Preorder<E>(u: set<E>, le: (E, E) -> bool) {
    && (forall x, y :: x in u && y in u ==> le(x, y) || le(y, x))
    && (forall x, y, z :: x in u && y in u && z in u && le(x, y) && le(y, z) ==> le(x, z))
  }

  ghost predicate From<E>(s: seq<E>, u: set<E>) {
    forall i :: 0 <= i < |s| ==> s[i] in u
  }

  ghost predicate Sorted<E>(s: seq<E>, le: (E, E) -> bool) {
    forall i, j :: 0 <= i < j < |s| ==> le(s[i], s[j])
  }

  lemma {:induction false} MergeMembers<E>(a: seq<E>, b: seq<E>, le: (E, E) -> bool)
    ensures multiset(Merge(a, b, le)) == multiset(a) + multiset(b)
    decreases |a| + |b|
  {
    if a != [] && b != [] {
      assert a == [a[0]] + a[1..] && b == [b[0]] + b[1..];
      if le(a[0], b[0]) {
        MergeMembers(a[1..], b, le);
      } else {
        MergeMembers(a, b[1..], le);
      }
    }
  }

  lemma MergeFrom<E>(a: seq<E>, b: seq<E>, le: (E, E) -> bool, i: nat)
    requires i < |a| + |b|
    ensures Merge(a, b, le)[i] in a || Merge(a, b, le)[i] in b
  {
    MergeMembers(a, b, le);
    assert Merge(a, b, le)[i] in multiset(Merge(a, b, le));
  }

  lemma {:induction false} MergeSorted<E>(a: seq<E>, b: seq<E>, le: (E, E) -> bool, u: set<E>)
    requires Preorder(u, le) && From(a, u) && From(b, u) && Sorted(a, le) && Sorted(b, le)
    ensures Sorted(Merge(a, b, le), le)
    decreases |a| + |b|
  {
    if a != [] && b != [] {
      var first := le(a[0], b[0]);
      var h, a', b' := if first then a[0] else b[0], if first then a[1..] else a, if first then b else b[1..];
      MergeSorted(a', b', le, u);
      var r := Merge(a', b', le);
      forall i | 0 <= i < |r| ensures le(h, r[i]) {
        MergeFrom(a', b', le, i);
        if r[i] in a' {
          var t :| 0 <= t < |a'| && a'[t] == r[i];
        } else {
          var t :| 0 <= t < |b'| && b'[t] == r[i];
        }
      }
    }
  }

  /** Every run of length k is sorted. */
  ghost predicate Runs<E>(s: seq<E>, k: nat, le: (E, E) -> bool)
    requires k >= 1
    decreases |s|
  {
    s == [] || (Sorted(s[..Min(k, |s|)], le) && Runs(s[Min(k, |s|)..], k, le))
  }

  /** A pass of width k turns sorted runs of length k into sorted runs of length 2k. */
  lemma {:induction false} PassRuns<E>(s: seq<E>, k: nat, le: (E, E) -> bool, u: set<E>)
    requires k >= 1 && Preorder(u, le) && From(s, u) && Runs(s, k, le)
    ensures Runs(Pass(s, k, le), 2 * k, le)
    decreases |s|
  {
    if s != [] {
      var i, j := Min(k, |s|), Min(2 * k, |s|);
      var m, rest := Merge(s[..i], s[i..j], le), Pass(s[j..], k, le);
      assert s[i..][..Min(k, |s| - i)] == s[i..j] && s[i..][Min(k, |s| - i)..] == s[j..];
      assert Sorted(s[i..j], le) && Runs(s[j..], k, le);
      MergeSorted(s[..i], s[i..j], le, u);
      PassRuns(s[j..], k, le, u);
      assert |m| == j && (m + rest)[..j] == m && (m + rest)[j..] == rest;
    }
  }

  lemma {:induction false} SingletonRuns<E>(s: seq<E>, le: (E, E) -> bool)
    ensures Runs(s, 1, le)
    decreases |s|
  {
    if s != [] { SingletonRuns(s[1..], le); }
  }

  lemma {:induction false} BottomUpSorted<E>(s: seq<E>, k: nat, le: (E, E) -> bool, u: set<E>)
    requires k >= 1 && Preorder(u, le) && From(s, u) && Runs(s, k, le)
    ensures Sorted(BottomUp(s, k, le), le)
    decreases |s| - k
  {
    PassRuns(s, k, le, u);
    if |s| > 2 * k {
      PassFrom(s, k, le, u);
      BottomUpSorted(Pass(s, k, le), 2 * k, le, u);
    } else {
      var t := Pass(s, k, le);
      assert t[..Min(2 * k, |t|)] == t;
    }
  }

  // ---------- stable ----------

  ghost predicate Same<E>(x: E, y: E, le: (E, E) -> bool) {
    le(x, y) && le(y, x)
  }

  /** The elements of s that the order does not tell from x, in order. */
  ghost function Class<E>(s: seq<E>, x: E, le: (E, E) -> bool): seq<E> {
    if s == [] then [] else (if Same(x, s[0], le) then [s[0]] else []) + Class(s[1..], x, le)
  }

  lemma {:induction false} ClassConcat<E>(a: seq<E>, b: seq<E>, x: E, le: (E, E) -> bool)
    ensures Class(a + b, x, le) == Class(a, x, le) + Class(b, x, le)
    decreases |a|
  {
    if a == [] {
      assert a + b == b;
    } else {
      ClassConcat(a[1..], b, x, le);
      hide Class;
      assert a + b == [a[0]] + (a[1..] + b);
      ClassCons(a[0], a[1..] + b, x, le);
      assert a == [a[0]] + a[1..];
      ClassCons(a[0], a[1..], x, le);
      Assoc(One(a[0], x, le), Class(a[1..], x, le), Class(b, x, le));
    }
  }

  /** A sorted run above x's class has nothing of it. */
  lemma {:induction false} ClassAbove<E>(a: seq<E>, x: E, h: E, le: (E, E) -> bool, u: set<E>)
    requires Preorder(u, le) && From(a, u) && x in u && h in u && Same(x, h, le) && forall i :: 0 <= i < |a| ==> !le(a[i], h)
    ensures Class(a, x, le) == []
    decreases |a|
  {
    if a != [] {
      ClassAbove(a[1..], x, h, le, u);
    }
  }

  lemma {:induction false} MergeStable<E>(a: seq<E>, b: seq<E>, x: E, le: (E, E) -> bool, u: set<E>)
    requires Preorder(u, le) && From(a, u) && From(b, u) && x in u && Sorted(a, le)
    ensures Class(Merge(a, b, le), x, le) == Class(a, x, le) + Class(b, x, le)
    decreases |a| + |b|
  {
    hide Preorder, Same, Sorted, Class, Merge;
    if a == [] || b == [] {
      MergeEmpty(a, b, x, le);
    } else if le(a[0], b[0]) {
      SortedTail(a, le);
      MergeStable(a[1..], b, x, le, u);
      MergeHead(a, b, le);
      ClassCons(a[0], Merge(a[1..], b, le), x, le);
      ClassCons(a[0], a[1..], x, le);
      assert a == [a[0]] + a[1..];
      Assoc(One(a[0], x, le), Class(a[1..], x, le), Class(b, x, le));
    } else {
      MergeStable(a, b[1..], x, le, u);
      MergeHead(a, b, le);
      ClassCons(b[0], Merge(a, b[1..], le), x, le);
      ClassCons(b[0], b[1..], x, le);
      assert b == [b[0]] + b[1..];
      if Same(x, b[0], le) { NoneBelow(a, b[0], x, le, u); }
    }
  }

  ghost function One<E>(h: E, x: E, le: (E, E) -> bool): seq<E> {
    if Same(x, h, le) then [h] else []
  }

  lemma ClassCons<E>(h: E, r: seq<E>, x: E, le: (E, E) -> bool)
    ensures Class([h] + r, x, le) == One(h, x, le) + Class(r, x, le)
  {
    assert ([h] + r)[1..] == r;
  }

  lemma MergeEmpty<E>(a: seq<E>, b: seq<E>, x: E, le: (E, E) -> bool)
    requires a == [] || b == []
    ensures Class(Merge(a, b, le), x, le) == Class(a, x, le) + Class(b, x, le)
  {
  }

  lemma MergeHead<E>(a: seq<E>, b: seq<E>, le: (E, E) -> bool)
    requires a != [] && b != []
    ensures Merge(a, b, le) == if le(a[0], b[0]) then [a[0]] + Merge(a[1..], b, le) else [b[0]] + Merge(a, b[1..], le)
  {
  }

  lemma SortedTail<E>(a: seq<E>, le: (E, E) -> bool)
    requires a != [] && Sorted(a, le)
    ensures Sorted(a[1..], le)
  {
  }

  lemma NoneBelow<E>(a: seq<E>, h: E, x: E, le: (E, E) -> bool, u: set<E>)
    requires Preorder(u, le) && From(a, u) && h in u && x in u && a != [] && Sorted(a, le) && !le(a[0], h) && Same(x, h, le)
    ensures Class(a, x, le) == []
  {
    hide Class;
    forall i | 0 <= i < |a| ensures !le(a[i], h) {
      assert i > 0 ==> le(a[0], a[i]);
    }
    ClassAbove(a, x, h, le, u);
  }

  lemma {:induction false} PassStable<E>(s: seq<E>, k: nat, x: E, le: (E, E) -> bool, u: set<E>)
    requires k >= 1 && Preorder(u, le) && From(s, u) && x in u && Runs(s, k, le)
    ensures Class(Pass(s, k, le), x, le) == Class(s, x, le)
    decreases |s|
  {
    hide Class, Merge, Sorted;
    if s != [] {
      var i, j := Min(k, |s|), Min(2 * k, |s|);
      assert s[i..][..Min(k, |s| - i)] == s[i..j] && s[i..][Min(k, |s| - i)..] == s[j..];
      PassStable(s[j..], k, x, le, u);
      MergeStable(s[..i], s[i..j], x, le, u);
      ClassConcat(Merge(s[..i], s[i..j], le), Pass(s[j..], k, le), x, le);
      ClassConcat(s[..i], s[i..j], x, le);
      ClassConcat(s[..i] + s[i..j], s[j..], x, le);
      assert s == s[..i] + s[i..j] + s[j..];
    }
  }

  lemma {:induction false} PassMembers<E>(s: seq<E>, k: nat, le: (E, E) -> bool)
    requires k >= 1
    ensures multiset(Pass(s, k, le)) == multiset(s)
    decreases |s|
  {
    hide Merge;
    if s != [] {
      var i, j := Min(k, |s|), Min(2 * k, |s|);
      PassMembers(s[j..], k, le);
      MergeMembers(s[..i], s[i..j], le);
      ThreeParts(s, i, j);
    }
  }

  lemma ThreeParts<E>(s: seq<E>, i: nat, j: nat)
    requires i <= j <= |s|
    ensures multiset(s) == multiset(s[..i]) + multiset(s[i..j]) + multiset(s[j..])
  {
    assert s[..i] + s[i..j] == s[..j];
    assert s[..j] + s[j..] == s;
  }

  lemma PassFrom<E>(s: seq<E>, k: nat, le: (E, E) -> bool, u: set<E>)
    requires k >= 1 && From(s, u)
    ensures From(Pass(s, k, le), u)
  {
    PassMembers(s, k, le);
    var r := Pass(s, k, le);
    forall i | 0 <= i < |r| ensures r[i] in u {
      assert r[i] in multiset(r) && r[i] in multiset(s);
    }
  }

  lemma {:induction false} BottomUpStable<E>(s: seq<E>, k: nat, x: E, le: (E, E) -> bool, u: set<E>)
    requires k >= 1 && Preorder(u, le) && From(s, u) && x in u && Runs(s, k, le)
    ensures Class(BottomUp(s, k, le), x, le) == Class(s, x, le)
    decreases |s| - k
  {
    PassStable(s, k, x, le, u);
    if |s| > 2 * k {
      PassRuns(s, k, le, u);
      PassFrom(s, k, le, u);
      BottomUpStable(Pass(s, k, le), 2 * k, x, le, u);
    }
  }

  lemma {:induction false} BottomUpMembers<E>(s: seq<E>, k: nat, le: (E, E) -> bool)
    requires k >= 1
    ensures multiset(BottomUp(s, k, le)) == multiset(s)
    decreases |s| - k
  {
    PassMembers(s, k, le);
    if |s| > 2 * k {
      BottomUpMembers(Pass(s, k, le), 2 * k, le);
    }
  }

  /** For a total preorder the passes from width one give a sorted, stable permutation. */
  lemma BottomUpCorrect<E>(s: seq<E>, le: (E, E) -> bool, u: set<E>)
    requires Preorder(u, le) && From(s, u)
    ensures Sorted(BottomUp(s, 1, le), le)
    ensures multiset(BottomUp(s, 1, le)) == multiset(s)
    ensures forall x :: x in u ==> Class(BottomUp(s, 1, le), x, le) == Class(s, x, le)
  {
    SingletonRuns(s, le);
    BottomUpSorted(s, 1, le, u);
    BottomUpMembers(s, 1, le);
    forall x | x in u ensures Class(BottomUp(s, 1, le), x, le) == Class(s, x, le) {
      BottomUpStable(s, 1, x, le, u);
    }
  }
}
