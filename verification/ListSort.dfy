/** DL_SORT2 of 2PCKVStore/utlist.h:208-286: in-place mergesort of a doubly linked
    list (LL_SORT2 is the same loop without the prev links). */
module ListSort {
  import opened Basics
  import opened MergeSpec

  class Node<T> {
    const val: T
    var next: Node?<T>
    var prev: Node?<T>

    constructor (val: T)
      ensures this.val == val && next == null && prev == null
    {
      this.val := val;
      next, prev := null, null;
    }
  }

  /** Each node's next is the following one. */
  ghost predicate Linked<T>(s: seq<Node<T>>)
    reads s
  {
    forall i, j :: 0 <= i < |s| && j == i + 1 < |s| ==> s[i].next == s[j]
  }

  /** Each node's prev is the preceding one. */
  ghost predicate BackLinked<T>(s: seq<Node<T>>)
    reads s
  {
    forall i, j :: 0 <= i < |s| && j == i + 1 < |s| ==> s[j].prev == s[i]
  }

  /** p is the first node of s, or null. */
  ghost predicate First<T>(p: Node?<T>, s: seq<Node<T>>) {
    p == if s == [] then null else s[0]
  }

  ghost predicate Last<T>(p: Node?<T>, s: seq<Node<T>>) {
    p == if s == [] then null else s[|s| - 1]
  }

  /** A null-terminated list. */
  ghost predicate List<T>(p: Node?<T>, s: seq<Node<T>>)
    reads s
  {
    First(p, s) && Linked(s) && (s != [] ==> s[|s| - 1].next == null)
  }

  /** A utlist doubly linked list: prev is the inverse of next, and the head's prev
      is the tail. */
  ghost predicate DlList<T>(p: Node?<T>, s: seq<Node<T>>)
    reads s
  {
    List(p, s) && BackLinked(s) && Distinct(s) && (s != [] ==> s[0].prev == s[|s| - 1])
  }

  /** Appending e behind tail (utlist.h:262-272). */
  method Append<T>(e: Node<T>, tail: Node?<T>, list: Node?<T>, ghost out: seq<Node<T>>) returns (head: Node<T>)
    requires Linked(out) && BackLinked(out) && First(list, out) && Last(tail, out) && e !in out && Distinct(out)
    modifies e`prev, out`next
    ensures Linked(out + [e]) && BackLinked(out + [e]) && First(head, out + [e]) && Distinct(out + [e])
  {
    if tail != null {
      tail.next := e;
      head := list;
    } else {
      head := e;
    }
    e.prev := tail;
  }

  /** The step over one run (utlist.h:225-234). */
  method Advance<T>(p: Node<T>, insize: nat, ghost s: seq<Node<T>>) returns (q: Node?<T>, psize: nat)
    requires insize >= 1 && List(p, s) && s != []
    ensures psize == Min(insize, |s|) && First(q, s[psize..])
  {
    q := p;
    psize := 0;
    for i := 0 to insize
      invariant psize == i < |s| && q == s[i]
    {
      psize := psize + 1;
      assert psize < |s| ==> s[i].next == s[psize];
      q := q.next;
      if q == null {
        break;
      }
    }
  }

  lemma TakeLeft<E>(a: seq<E>, b: seq<E>, le: (E, E) -> bool)
    requires a != [] && (b == [] || le(a[0], b[0]))
    ensures Merge(a, b, le) == [a[0]] + Merge(a[1..], b, le)
  {
    if b == [] { assert a == [a[0]] + a[1..]; assert Merge(a[1..], b, le) == a[1..]; }
  }

  lemma TakeRight<E>(a: seq<E>, b: seq<E>, le: (E, E) -> bool)
    requires b != [] && (a == [] || !le(a[0], b[0]))
    ensures Merge(a, b, le) == [b[0]] + Merge(a, b[1..], le)
  {
    if a == [] { assert b == [b[0]] + b[1..]; }
  }

  /** All three parts of the list are disjoint and made of the given nodes. */
  ghost predicate Apart<T>(out: seq<Node<T>>, left: seq<Node<T>>, right: seq<Node<T>>, all: set<Node<T>>) {
    && Distinct(out) && Distinct(left) && Distinct(right)
    && (forall i, j :: 0 <= i < |out| && 0 <= j < |left| ==> out[i] != left[j])
    && (forall i, j :: 0 <= i < |out| && 0 <= j < |right| ==> out[i] != right[j])
    && (forall i, j :: 0 <= i < |left| && 0 <= j < |right| ==> left[i] != right[j])
    && From(out, all) && From(left, all) && From(right, all)
  }

  /** The links of the three parts during a merge: what is merged so far, what is
      left of the left run, and the rest of the list from the right run on. */
  ghost predicate Merging<T>(list: Node?<T>, tail: Node?<T>, p: Node?<T>, q: Node?<T>,
                             out: seq<Node<T>>, left: seq<Node<T>>, right: seq<Node<T>>, all: set<Node<T>>)
    reads out, left, right
  {
    && Apart(out, left, right, all)
    && Linked(out) && BackLinked(out) && First(list, out) && Last(tail, out)
    && Linked(left) && (left != [] ==> p == left[0])
    && List(q, right)
  }

  /** Moving the head of the left run to the output. */
  method MoveLeft<T>(list: Node?<T>, tail: Node?<T>, p: Node<T>, q: Node?<T>,
                     ghost out: seq<Node<T>>, ghost left: seq<Node<T>>, ghost right: seq<Node<T>>, ghost all: set<Node<T>>)
    returns (list': Node?<T>, tail': Node?<T>, p': Node?<T>)
    requires Merging(list, tail, p, q, out, left, right, all) && left != []
    modifies all
    ensures Merging(list', tail', p', q, out + [left[0]], left[1..], right, all)
  {
    var e := p;
    p' := e.next;
    list' := Append(e, tail, list, out);
    tail' := e;
  }

  /** Moving the head of the right run to the output. */
  method MoveRight<T>(list: Node?<T>, tail: Node?<T>, p: Node?<T>, q: Node<T>,
                      ghost out: seq<Node<T>>, ghost left: seq<Node<T>>, ghost right: seq<Node<T>>, ghost all: set<Node<T>>)
    returns (list': Node?<T>, tail': Node?<T>, q': Node?<T>)
    requires Merging(list, tail, p, q, out, left, right, all) && right != []
    modifies all
    ensures Merging(list', tail', p, q', out + [right[0]], left, right[1..], all)
  {
    var e := q;
    q' := e.next;
    list' := Append(e, tail, list, out);
    tail' := e;
  }

  /** The merge loop, utlist.h:236-273: the left run, which has psize nodes, with up
      to insize nodes of the rest. */
  method MergeRuns<T>(list0: Node?<T>, tail0: Node?<T>, p0: Node<T>, q0: Node?<T>, psize0: nat, insize: nat,
                      le: (Node<T>, Node<T>) -> bool,
                      ghost out0: seq<Node<T>>, ghost left0: seq<Node<T>>, ghost right0: seq<Node<T>>, ghost all: set<Node<T>>)
    returns (list: Node?<T>, tail: Node?<T>, q: Node?<T>)
    requires Merging(list0, tail0, p0, q0, out0, left0, right0, all) && psize0 == |left0| && left0 != []
    modifies all
    ensures var n := Min(insize, |right0|);
      Merging(list, tail, null, q, out0 + Merge(left0, right0[..n], le), [], right0[n..], all)
  {
    hide Merging, Merge;
    list, tail, q := list0, tail0, q0;
    var p: Node?<T>, psize, qsize := p0, psize0, insize;
    ghost var out, left, right := out0, left0, right0;
    MergingHeads(list, tail, p, q, out, left, right, all);
    while psize > 0 || (qsize > 0 && q != null)
      invariant Merging(list, tail, p, q, out, left, right, all) && psize == |left| && (left != [] ==> p == left[0]) && First(q, right)
      invariant out + Merge(left, right[..Min(qsize, |right|)], le) == out0 + Merge(left0, right0[..Min(insize, |right0|)], le)
      invariant right[Min(qsize, |right|)..] == right0[Min(insize, |right0|)..]
      decreases |left| + |right|
    {
      ghost var b := right[..Min(qsize, |right|)];
      var takeLeft := psize > 0 && (qsize == 0 || q == null || le(p, q));
      if takeLeft {
        TakeLeft(left, b, le);
        list, tail, p := MoveLeft(list, tail, p, q, out, left, right, all);
        out, left, psize := out + [left[0]], left[1..], psize - 1;
      } else {
        TakeRight(left, b, le);
        list, tail, q := MoveRight(list, tail, p, q, out, left, right, all);
        out, right, qsize := out + [right[0]], right[1..], qsize - 1;
        assert b[1..] == right[..Min(qsize, |right|)];
      }
      MergingHeads(list, tail, p, q, out, left, right, all);
    }
    MergeNone(le, right[..Min(qsize, |right|)]);
    assert left == [] && Min(qsize, |right|) == 0 && right[..0] == [] && right[0..] == right;
    assert out + [] == out;
    MergingEnd(list, tail, p, q, out, right, all);
  }

  lemma MergeNone<E>(le: (E, E) -> bool, b: seq<E>)
    ensures Merge([], b, le) == b
  {
  }

  lemma MergingHeads<T>(list: Node?<T>, tail: Node?<T>, p: Node?<T>, q: Node?<T>,
                        out: seq<Node<T>>, left: seq<Node<T>>, right: seq<Node<T>>, all: set<Node<T>>)
    requires Merging(list, tail, p, q, out, left, right, all)
    ensures (left != [] ==> p == left[0]) && First(q, right)
  {
  }

  lemma MergingEnd<T>(list: Node?<T>, tail: Node?<T>, p: Node?<T>, q: Node?<T>,
                      out: seq<Node<T>>, right: seq<Node<T>>, all: set<Node<T>>)
    requires Merging(list, tail, p, q, out, [], right, all)
    ensures Merging(list, tail, null, q, out, [], right, all)
  {
  }

  lemma PassStart<T>(p: Node?<T>, s: seq<Node<T>>, all: set<Node<T>>)
    requires List(p, s) && Distinct(s) && From(s, all)
    ensures Merging(null, null, null, p, [], [], s, all) && First(p, s)
  {
  }

  lemma RunStart<T>(list: Node?<T>, tail: Node?<T>, p: Node?<T>, q: Node?<T>,
                    out: seq<Node<T>>, rest: seq<Node<T>>, n: nat, all: set<Node<T>>)
    requires Merging(list, tail, null, p, out, [], rest, all) && 1 <= n <= |rest| && First(q, rest[n..])
    ensures Merging(list, tail, p, q, out, rest[..n], rest[n..], all)
  {
  }

  /** Only the last merge of a pass can be the first. */
  lemma MergeCount(nmerges: nat, insize: nat, total: nat, done: nat, left: nat)
    requires insize >= 1 && nmerges >= 1 && done == (nmerges - 1) * (2 * insize) && done + left == total && left > 0
    ensures left > 2 * insize ==> done + 2 * insize == nmerges * (2 * insize)
    ensures left <= 2 * insize ==> (nmerges <= 1 <==> total <= 2 * insize)
  {
    assert (nmerges - 1) * (2 * insize) + 2 * insize == nmerges * (2 * insize);
    if nmerges >= 2 { assert (nmerges - 1) * (2 * insize) >= 2 * insize; }
  }

  lemma CloseReady<T>(head: Node?<T>, tail: Node?<T>, out: seq<Node<T>>, all: set<Node<T>>)
    requires Merging(head, tail, null, null, out, [], [], all) && out != []
    ensures head != null && tail != null && head in all && tail in all
  {
  }

  method AdvanceFrom<T>(p: Node<T>, insize: nat, ghost list: Node?<T>, ghost tail: Node?<T>,
                        ghost out: seq<Node<T>>, ghost rest: seq<Node<T>>, ghost all: set<Node<T>>)
    returns (q: Node?<T>, psize: nat)
    requires insize >= 1 && Merging(list, tail, null, p, out, [], rest, all) && rest != []
    ensures psize == Min(insize, |rest|) && First(q, rest[psize..])
  {
    q, psize := Advance(p, insize, rest);
  }

  /** The end of a pass, utlist.h:276-278. */
  method Close<T>(head: Node<T>, tail: Node<T>, ghost out: seq<Node<T>>, ghost all: set<Node<T>>)
    requires Merging(head, tail, null, null, out, [], [], all) && out != []
    modifies head`prev, tail`next
    ensures DlList(head, out) && From(out, all)
  {
    head.prev := tail;
    tail.next := null;
  }

  /** One pass, utlist.h:219-278: merges the runs of length insize in pairs. */
  method OnePass<T>(list0: Node<T>, insize: nat, le: (Node<T>, Node<T>) -> bool, ghost s: seq<Node<T>>, ghost all: set<Node<T>>)
    returns (list: Node<T>, nmerges: nat)
    requires insize >= 1 && List(list0, s) && Distinct(s) && s != [] && From(s, all)
    modifies all
    ensures DlList(list, Pass(s, insize, le)) && From(Pass(s, insize, le), all)
    ensures nmerges <= 1 <==> |s| <= 2 * insize
  {
    hide Merge, Merging, Pass;
    var p: Node?<T>, head: Node?<T>, tail: Node?<T> := list0, null, null;
    nmerges := 0;
    ghost var out, rest: seq<Node<T>> := [], s;
    PassStart(p, s, all);
    PassStep(s, insize, le);
    while p != null
      invariant Merging(head, tail, null, p, out, [], rest, all) && First(p, rest)
      invariant out + Pass(rest, insize, le) == Pass(s, insize, le) && |out| + |rest| == |s|
      invariant rest != [] ==> |out| == nmerges * (2 * insize)
      invariant rest == [] ==> (nmerges <= 1 <==> |s| <= 2 * insize)
      decreases |rest|
    {
      nmerges := nmerges + 1;
      head, tail, p := MergePair(head, tail, p, insize, le, out, rest, all);
      MergeCount(nmerges, insize, |s|, |out|, |rest|);
      PassStep(rest, insize, le);
      ghost var i, j := Min(insize, |rest|), Min(2 * insize, |rest|);
      Assoc(out, Merge(rest[..i], rest[i..j], le), Pass(rest[j..], insize, le));
      out, rest := out + Merge(rest[..i], rest[i..j], le), rest[j..];
      MergingHeads(head, tail, null, p, out, [], rest, all);
    }
    PassStep(rest, insize, le);
    assert out == Pass(s, insize, le);
    CloseReady(head, tail, out, all);
    Close(head, tail, out, all);
    list := head;
  }

  lemma PassStep<E>(s: seq<E>, k: nat, le: (E, E) -> bool)
    requires k >= 1
    ensures s == [] ==> Pass(s, k, le) == []
    ensures var i, j := Min(k, |s|), Min(2 * k, |s|);
      s != [] ==> Pass(s, k, le) == Merge(s[..i], s[i..j], le) + Pass(s[j..], k, le)
  {
  }

  /** The two runs that start at p, merged, utlist.h:224-274. */
  method MergePair<T>(list0: Node?<T>, tail0: Node?<T>, p: Node<T>, insize: nat, le: (Node<T>, Node<T>) -> bool,
                      ghost out: seq<Node<T>>, ghost rest: seq<Node<T>>, ghost all: set<Node<T>>)
    returns (list: Node?<T>, tail: Node?<T>, q: Node?<T>)
    requires insize >= 1 && Merging(list0, tail0, null, p, out, [], rest, all) && rest != []
    modifies all
    ensures var i, j := Min(insize, |rest|), Min(2 * insize, |rest|);
      Merging(list, tail, null, q, out + Merge(rest[..i], rest[i..j], le), [], rest[j..], all)
  {
    hide Merge, Merging;
    var psize;
    q, psize := AdvanceFrom(p, insize, list0, tail0, out, rest, all);
    ghost var i, j := Min(insize, |rest|), Min(2 * insize, |rest|);
    RunStart(list0, tail0, p, q, out, rest, psize, all);
    list, tail, q := MergeRuns(list0, tail0, p, q, psize, insize, le, out, rest[..psize], rest[psize..], all);
    SliceSlice(rest, i, j);
  }

  lemma SliceSlice<E>(rest: seq<E>, i: nat, j: nat)
    requires i <= j <= |rest|
    ensures rest[i..][..j - i] == rest[i..j] && rest[i..][j - i..] == rest[j..]
  {
  }

  /** DL_SORT2: any list becomes the sorted, stable permutation of itself. */
  method Sort<T>(list0: Node?<T>, le: (Node<T>, Node<T>) -> bool, ghost s: seq<Node<T>>, ghost all: set<Node<T>>)
    returns (list: Node?<T>, ghost r: seq<Node<T>>)
    requires DlList(list0, s) && From(s, all)
    modifies all
    ensures DlList(list, r) && multiset(r) == multiset(s)
    ensures Preorder(all, le) ==> Sorted(r, le) && forall x :: x in all ==> Class(r, x, le) == Class(s, x, le)
  {
    hide Pass, Class;
    list, r := list0, s;
    if list != null {
      var insize, looping := 1, true;
      while looping
        invariant insize >= 1 && r != [] && |r| == |s| && From(r, all) && DlList(list, r)
        invariant looping ==> BottomUp(r, insize, le) == BottomUp(s, 1, le)
        invariant !looping ==> r == BottomUp(s, 1, le)
        decreases looping, |s| - insize
      {
        var nmerges;
        list, nmerges := OnePass(list, insize, le, r, all);
        r := Pass(r, insize, le);
        if nmerges <= 1 {
          looping := false;
        }
        insize := insize * 2;
      }
      BottomUpMembers(s, 1, le);
      if Preorder(all, le) {
        BottomUpCorrect(s, le, all);
      }
    }
  }
}
