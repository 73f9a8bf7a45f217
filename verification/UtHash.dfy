/** The hash table of 2PCKVStore/uthash.h: an insertion-order list and bucket chains
    over the same items, with bucket doubling. */
module UtHash {
  import opened Basics

  const INITIAL_NUM_BUCKETS := 32
  const INITIAL_NUM_BUCKETS_LOG2 := 5
  const BKT_CAPACITY_THRESH := 10

  /** A user's item with its hash handle. */
  class Item {
    const key: string
    const hashv: nat
    var next: Item?
    var prev: Item?
    var hhNext: Item?
    var hhPrev: Item?

    constructor (key: string, hashv: nat)
      ensures this.key == key && this.hashv == hashv
    {
      this.key, this.hashv := key, hashv;
      next, prev, hhNext, hhPrev := null, null, null, null;
    }
  }

  datatype Bucket = Bucket(head: Item?, count: nat, expandMult: nat)

  function Pow2(n: nat): (r: nat)
    ensures r >= 1
  {
    if n == 0 then 1 else 2 * Pow2(n - 1)
  }

  /** Bitwise and. */
  function And(a: nat, b: nat): nat {
    if a == 0 || b == 0 then 0 else (a % 2) * (b % 2) + 2 * And(a / 2, b / 2)
  }

  /** Shifting right. */
  function Shr(n: nat, k: nat): nat {
    if k == 0 then n else Shr(n / 2, k - 1)
  }

  lemma Halving(h: int, n: int)
    requires h >= 0 && n > 0
    ensures h % (2 * n) == 2 * (h / 2 % n) + h % 2 && h / (2 * n) == h / 2 / n
  {
    var q, r := h / 2 / n, h / 2 % n;
    assert h / 2 == q * n + r;
    assert h == q * (2 * n) + (2 * r + h % 2);
    DivMod(h, q, 2 * r + h % 2, 2 * n);
  }

  lemma AndOdd(h: nat, m: nat)
    ensures And(h, 2 * m + 1) == h % 2 + 2 * And(h / 2, m)
  {
    assert (2 * m + 1) % 2 == 1 && (2 * m + 1) / 2 == m;
  }

  /** HASH_TO_BKT, uthash.h:211-214: masking with a power of two less one is the
      remainder. */
  lemma {:induction false} MaskIsMod(h: nat, k: nat)
    ensures And(h, Pow2(k) - 1) == h % Pow2(k)
    decreases k
  {
    hide And;
    if k == 0 {
      AndZero(h);
    } else {
      var n := Pow2(k - 1);
      MaskIsMod(h / 2, k - 1);
      AndOdd(h, n - 1);
      Halving(h, n);
      assert Pow2(k) - 1 == 2 * (n - 1) + 1;
    }
  }

  lemma AndZero(h: nat)
    ensures And(h, 0) == 0
  {
  }

  lemma {:induction false} ShrIsDiv(n: nat, k: nat)
    ensures Shr(n, k) == n / Pow2(k)
    decreases k
  {
    if k > 0 {
      ShrIsDiv(n / 2, k - 1);
      Halving(n, Pow2(k - 1));
    }
  }

  /** The ideal chain length of uthash.h:730-731. */
  function IdealLength(items: nat, log2: nat): nat {
    Shr(items, log2 + 1) + (if And(items, Pow2(log2) * 2 - 1) != 0 then 1 else 0)
  }

  lemma Ceiling(items: nat, n: nat)
    requires n > 0
    ensures var c := items / n + (if items % n != 0 then 1 else 0); (c - 1) * n < items <= c * n
  {
    var q, r := items / n, items % n;
    assert items == q * n + r;
    assert (q + 1) * n == q * n + n && (q - 1) * n == q * n - n;
  }

  /** It is the number of items over the doubled number of buckets, rounded up. */
  lemma IdealIsCeiling(items: nat, log2: nat)
    ensures var n, c := 2 * Pow2(log2), IdealLength(items, log2); (c - 1) * n < items <= c * n
  {
    hide And, Shr;
    MaskIsMod(items, log2 + 1);
    ShrIsDiv(items, log2 + 1);
    Ceiling(items, Pow2(log2 + 1));
  }

  ghost predicate First(p: Item?, s: seq<Item>) {
    p == if s == [] then null else s[0]
  }

  /** A bucket chain: hhNext and hhPrev mutually inverse, null at both ends. */
  ghost predicate Chained(s: seq<Item>)
    reads s`hhNext, s`hhPrev
  {
    && (forall i, j :: 0 <= i < |s| && j == i + 1 < |s| ==> s[i].hhNext == s[j] && s[j].hhPrev == s[i])
    && (s != [] ==> s[0].hhPrev == null && s[|s| - 1].hhNext == null)
  }

  /** The chains hold exactly the given items, each in the chain of its hash. */
  ghost predicate Exactly(chains: seq<seq<Item>>, items: set<Item>) {
    && |chains| >= 1
    && (forall b :: 0 <= b < |chains| ==> Distinct(chains[b]))
    && (forall b, i :: 0 <= b < |chains| && 0 <= i < |chains[b]| ==> chains[b][i] in items && chains[b][i].hashv % |chains| == b)
    && (forall x :: x in items ==> x in chains[x.hashv % |chains|])
  }

  lemma ExactlyPush(chains: seq<seq<Item>>, items: set<Item>, x: Item, b: nat)
    requires Exactly(chains, items) && x !in items && b == x.hashv % |chains|
    ensures Exactly(chains[b := [x] + chains[b]], items + {x})
  {
    var c := chains[b := [x] + chains[b]];
    assert x !in chains[b];
    forall y | y in items + {x} ensures y in c[y.hashv % |c|] {
      assert y != x ==> y in chains[y.hashv % |chains|];
    }
  }

  lemma ExactlyRemove(chains: seq<seq<Item>>, items: set<Item>, b: nat, i: nat)
    requires Exactly(chains, items) && b < |chains| && i < |chains[b]|
    ensures Exactly(chains[b := chains[b][..i] + chains[b][i + 1..]], items - {chains[b][i]})
  {
    var x, s := chains[b][i], chains[b];
    var r := s[..i] + s[i + 1..];
    var c := chains[b := r];
    assert forall j :: 0 <= j < |r| ==> r[j] == s[if j < i then j else j + 1];
    forall y | y in items - {x} ensures y in c[y.hashv % |c|] {
      assert y in chains[y.hashv % |chains|];
      if y in s {
        var j :| 0 <= j < |s| && s[j] == y;
        assert r[if j < i then j else j - 1] == y;
      }
    }
  }

  /** The bucket array describes the chains: their heads and exact counts. */
  ghost predicate Heads(bkts: array<Bucket>, chains: seq<seq<Item>>)
    reads bkts
  {
    && bkts.Length == |chains|
    && forall b :: 0 <= b < |chains| ==> First(bkts[b].head, chains[b]) && bkts[b].count == |chains[b]|
  }

  /** All chains are linked; they lie within the given items. */
  ghost predicate Links(chains: seq<seq<Item>>, items: set<Item>)
    reads items`hhNext, items`hhPrev
  {
    && (forall b, i :: 0 <= b < |chains| && 0 <= i < |chains[b]| ==> chains[b][i] in items)
    && (forall b :: 0 <= b < |chains| ==> Chained(chains[b]))
  }

  ghost predicate Hung(bkts: array<Bucket>, chains: seq<seq<Item>>, items: set<Item>)
    reads bkts, items`hhNext, items`hhPrev
  {
    Heads(bkts, chains) && Links(chains, items)
  }

  /** x becomes the head of chain b. */
  method LinkFront(x: Item, head: Item?, b: nat, ghost chains: seq<seq<Item>>, ghost items: set<Item>)
    requires Exactly(chains, items) && Links(chains, items) && b < |chains| && x !in items && First(head, chains[b])
    modifies x`hhNext, x`hhPrev, chains[b]`hhPrev
    ensures Links(chains[b := [x] + chains[b]], items + {x})
  {
    hide Exactly;
    NotIn(chains, items, b, x);
    x.hhNext := head;
    x.hhPrev := null;
    if head != null {
      head.hhPrev := x;
    }
    ghost var c := chains[b := [x] + chains[b]];
    forall a | 0 <= a < |c| ensures Chained(c[a]) {
      if a != b { OtherChains(chains, items, a, b, x); }
    }
  }

  lemma OtherChains(chains: seq<seq<Item>>, items: set<Item>, a: nat, b: nat, x: Item)
    requires Exactly(chains, items) && a < |chains| && b < |chains| && a != b && x !in items
    ensures forall i :: 0 <= i < |chains[a]| ==> chains[a][i] != x && chains[a][i] !in chains[b]
  {
    forall i | 0 <= i < |chains[a]| ensures chains[a][i] != x && chains[a][i] !in chains[b] {
      assert chains[a][i] in items && chains[a][i].hashv % |chains| == a;
    }
  }

  /** HASH_ADD_TO_BKT without the expansion test, uthash.h:661-669, also the relinking
      of HASH_EXPAND_BUCKETS, uthash.h:743-747. */
  method PushFront(bkts: array<Bucket>, b: nat, x: Item, ghost chains: seq<seq<Item>>, ghost items: set<Item>)
    requires Hung(bkts, chains, items) && Exactly(chains, items) && b == x.hashv % |chains| && x !in items
    modifies bkts, x`hhNext, x`hhPrev, chains[b]`hhPrev
    ensures Hung(bkts, chains[b := [x] + chains[b]], items + {x}) && Exactly(chains[b := [x] + chains[b]], items + {x})
    ensures bkts[b].expandMult == old(bkts[b].expandMult) && bkts[b].count == old(bkts[b].count) + 1
    ensures forall a :: 0 <= a < bkts.Length && a != b ==> bkts[a] == old(bkts[a])
  {
    hide Exactly, Links;
    HungLength(bkts, chains, items);
    ExactlyPush(chains, items, x, b);
    ChainWithin(chains, items, b);
    LinkFront(x, bkts[b].head, b, chains, items);
    bkts[b] := bkts[b].(head := x, count := bkts[b].count + 1);
  }

  lemma NotIn(chains: seq<seq<Item>>, items: set<Item>, b: nat, x: Item)
    requires Exactly(chains, items) && b < |chains| && x !in items
    ensures x !in chains[b] && Distinct(chains[b])
  {
  }

  // ---------- bucket doubling ----------

  /** hhNext leads through s and ends; hhPrev may be stale. */
  ghost predicate NextLinked(s: seq<Item>)
    reads s`hhNext
  {
    && (forall i, j :: 0 <= i < |s| && j == i + 1 < |s| ==> s[i].hhNext == s[j])
    && (s != [] ==> s[|s| - 1].hhNext == null)
  }

  ghost function Members(s: seq<Item>): set<Item> {
    set x | x in s
  }

  /** How many items lie beyond the ideal length of their chains. */
  ghost function Excess(chains: seq<seq<Item>>, ideal: nat): nat {
    if chains == [] then 0 else Over(|chains[0]|, ideal) + Excess(chains[1..], ideal)
  }

  function Over(count: nat, ideal: nat): nat {
    if count > ideal then count - ideal else 0
  }

  lemma {:induction false} ExcessPush(chains: seq<seq<Item>>, b: nat, x: Item, ideal: nat)
    requires b < |chains|
    ensures Excess(chains[b := [x] + chains[b]], ideal) == Excess(chains, ideal) + (if |chains[b]| + 1 > ideal then 1 else 0)
  {
    var c := chains[b := [x] + chains[b]];
    if b == 0 {
      assert c[1..] == chains[1..];
    } else {
      ExcessPush(chains[1..], b - 1, x, ideal);
      assert c[1..] == chains[1..][b - 1 := [x] + chains[1..][b - 1]];
    }
  }

  lemma {:induction false} ExcessEmpty(n: nat, ideal: nat)
    ensures Excess(seq(n, _ => []), ideal) == 0
  {
    if n > 0 {
      ExcessEmpty(n - 1, ideal);
      assert seq<seq<Item>>(n, _ => [])[1..] == seq<seq<Item>>(n - 1, _ => []);
    }
  }

  /** The expansion multiple of a bucket of this size after a doubling. */
  function Mult(count: nat, ideal: nat): nat
    requires ideal >= 1
  {
    if count > ideal then count / ideal else 0
  }

  ghost predicate Multiples(bkts: array<Bucket>, ideal: nat)
    requires ideal >= 1
    reads bkts
  {
    forall b :: 0 <= b < bkts.Length ==> bkts[b].expandMult == Mult(bkts[b].count, ideal)
  }

  /** The multiple is how many ideal lengths fit into the chain, and 0 for a chain that is
      not too long. */
  lemma MultMeans(count: nat, ideal: nat)
    requires ideal >= 1
    ensures count <= ideal ==> Mult(count, ideal) == 0
    ensures count > ideal ==> var m := Mult(count, ideal); m * ideal <= count < (m + 1) * ideal
  {
    if count > ideal {
      var m := count / ideal;
      assert count == m * ideal + count % ideal && (m + 1) * ideal == m * ideal + ideal;
    }
  }

  /** The body of the inner loop, uthash.h:737-748: one item goes to the new bucket of its
      hash. */
  method MoveItem(x: Item, bkts: array<Bucket>, ideal: nat, nonideal0: nat,
                  ghost log2: nat, ghost chains0: seq<seq<Item>>, ghost items: set<Item>)
    returns (nonideal: nat, ghost chains: seq<seq<Item>>)
    requires ideal >= 1 && Hung(bkts, chains0, items) && Exactly(chains0, items) && x !in items
    requires bkts.Length == Pow2(log2) && Multiples(bkts, ideal) && nonideal0 == Excess(chains0, ideal)
    modifies bkts, x`hhNext, x`hhPrev, items`hhPrev
    ensures |chains| == |chains0| && Hung(bkts, chains, items + {x}) && Exactly(chains, items + {x})
    ensures Multiples(bkts, ideal) && nonideal == Excess(chains, ideal)
  {
    hide Links, Exactly, Excess, And;
    HungLength(bkts, chains0, items);
    MaskIsMod(x.hashv, log2);
    var b := And(x.hashv, bkts.Length - 1);
    ChainWithin(chains0, items, b);
    ExcessPush(chains0, b, x, ideal);
    PushFront(bkts, b, x, chains0, items);
    nonideal, chains := nonideal0, chains0[b := [x] + chains0[b]];
    if bkts[b].count > ideal {
      nonideal := nonideal + 1;
      bkts[b] := bkts[b].(expandMult := bkts[b].count / ideal);
    }
  }

  /** The inner loop of HASH_EXPAND_BUCKETS, uthash.h:734-749: the items of one old
      chain go to the new buckets of their hashes. */
  method Redistribute(first: Item?, bkts: array<Bucket>, ideal: nat, nonideal0: nat, ghost log2: nat,
                      ghost chain: seq<Item>, ghost chains0: seq<seq<Item>>, ghost moved: set<Item>)
    returns (nonideal: nat, ghost chains: seq<seq<Item>>)
    requires ideal >= 1 && Hung(bkts, chains0, moved) && Exactly(chains0, moved)
    requires First(first, chain) && NextLinked(chain) && Distinct(chain) && (forall i :: 0 <= i < |chain| ==> chain[i] !in moved)
    requires bkts.Length == Pow2(log2) && Multiples(bkts, ideal) && nonideal0 == Excess(chains0, ideal)
    modifies bkts, chain`hhNext, chain`hhPrev, moved`hhPrev
    ensures |chains| == |chains0| && Hung(bkts, chains, moved + Members(chain)) && Exactly(chains, moved + Members(chain))
    ensures Multiples(bkts, ideal) && nonideal == Excess(chains, ideal)
  {
    hide Hung, Exactly, Multiples, Excess;
    nonideal, chains := nonideal0, chains0;
    var thh := first;
    ghost var j, done: set<Item> := 0, moved;
    while thh != null
      invariant 0 <= j <= |chain| && thh == (if j < |chain| then chain[j] else null)
      invariant |chains| == |chains0| && Hung(bkts, chains, done) && Exactly(chains, done)
      invariant moved <= done && (forall x :: x in done ==> x in moved || x in chain)
      invariant forall i :: 0 <= i < |chain| ==> (chain[i] in done <==> i < j)
      invariant Multiples(bkts, ideal) && nonideal == Excess(chains, ideal)
      invariant forall i :: j <= i < |chain| ==> chain[i].hhNext == old(chain[i].hhNext)
      decreases |chain| - j
    {
      var nxt := thh.hhNext;
      assert nxt == if j + 1 < |chain| then chain[j + 1] else null;
      nonideal, chains := MoveItem(thh, bkts, ideal, nonideal, log2, chains, done);
      thh, j, done := nxt, j + 1, done + {thh};
    }
    assert done == moved + Members(chain);
  }

  lemma HungLength(bkts: array<Bucket>, chains: seq<seq<Item>>, items: set<Item>)
    requires Hung(bkts, chains, items) && Exactly(chains, items)
    ensures bkts.Length == |chains| >= 1
  {
  }

  lemma ChainWithin(chains: seq<seq<Item>>, items: set<Item>, b: nat)
    requires Exactly(chains, items) && b < |chains|
    ensures forall i :: 0 <= i < |chains[b]| ==> chains[b][i] in items
  {
  }

  /** All items of the first n chains. */
  ghost function Upto(chains: seq<seq<Item>>, n: nat): set<Item>
    requires n <= |chains|
  {
    if n == 0 then {} else Upto(chains, n - 1) + Members(chains[n - 1])
  }

  lemma {:induction false} UptoMember(chains: seq<seq<Item>>, n: nat, x: Item)
    requires n <= |chains|
    ensures x in Upto(chains, n) <==> exists b :: 0 <= b < n && x in chains[b]
  {
    if n > 0 {
      UptoMember(chains, n - 1, x);
      if x in Upto(chains, n) {
        if x in Members(chains[n - 1]) { assert x in chains[n - 1]; }
      }
    }
  }

  lemma UptoNext(chains: seq<seq<Item>>, items: set<Item>, n: nat)
    requires Exactly(chains, items) && n < |chains|
    ensures Members(chains[n]) !! Upto(chains, n) && Distinct(chains[n])
    ensures forall k, i :: n < k < |chains| && 0 <= i < |chains[k]| ==> chains[k][i] !in Upto(chains, n) && chains[k][i] !in chains[n]
  {
    forall k, i | n <= k < |chains| && 0 <= i < |chains[k]|
      ensures chains[k][i] !in Upto(chains, n) && (k > n ==> chains[k][i] !in chains[n])
    {
      UptoMember(chains, n, chains[k][i]);
    }
  }

  lemma UptoAll(chains: seq<seq<Item>>, items: set<Item>)
    requires Exactly(chains, items)
    ensures Upto(chains, |chains|) == items
  {
    forall x | x in Upto(chains, |chains|) ensures x in items {
      UptoMember(chains, |chains|, x);
      var b :| 0 <= b < |chains| && x in chains[b];
      var i :| 0 <= i < |chains[b]| && chains[b][i] == x;
    }
    forall x | x in items ensures x in Upto(chains, |chains|) {
      UptoMember(chains, |chains|, x);
      assert x in chains[x.hashv % |chains|];
    }
  }

  /** Every remaining old chain can still be walked. */
  ghost predicate Walkable(bkts: array<Bucket>, chains: seq<seq<Item>>, from: nat, items: set<Item>)
    reads bkts, items`hhNext
  {
    && bkts.Length == |chains|
    && (forall b, i :: 0 <= b < |chains| && 0 <= i < |chains[b]| ==> chains[b][i] in items)
    && (forall b :: from <= b < |chains| ==> First(bkts[b].head, chains[b]) && NextLinked(chains[b]))
  }

  lemma HungWalkable(bkts: array<Bucket>, chains: seq<seq<Item>>, items: set<Item>)
    requires Hung(bkts, chains, items)
    ensures Walkable(bkts, chains, 0, items)
  {
    forall b | 0 <= b < |chains| ensures NextLinked(chains[b]) { assert Chained(chains[b]); }
  }

  lemma EmptyHung(bkts: array<Bucket>, n: nat)
    requires bkts.Length == n >= 1 && forall b :: 0 <= b < n ==> bkts[b] == Bucket(null, 0, 0)
    ensures Hung(bkts, seq(n, _ => []), {}) && Exactly(seq(n, _ => []), {})
  {
    var c: seq<seq<Item>> := seq(n, _ => []);
    assert forall b :: 0 <= b < n ==> c[b] == [];
  }

  lemma EmptyMultiples(bkts: array<Bucket>, ideal: nat)
    requires ideal >= 1 && forall b :: 0 <= b < bkts.Length ==> bkts[b] == Bucket(null, 0, 0)
    ensures Multiples(bkts, ideal)
  {
  }

  /** The outer loop of HASH_EXPAND_BUCKETS, uthash.h:733-750: every item goes to the
      new bucket of its hash. */
  method Rehash(bkts: array<Bucket>, newBkts: array<Bucket>, ideal: nat, ghost log2: nat,
                ghost chains: seq<seq<Item>>, ghost items: set<Item>)
    returns (nonideal: nat, ghost chains': seq<seq<Item>>)
    requires bkts != newBkts && ideal >= 1 && Hung(bkts, chains, items) && Exactly(chains, items)
    requires newBkts.Length == Pow2(log2) && forall b :: 0 <= b < newBkts.Length ==> newBkts[b] == Bucket(null, 0, 0)
    modifies newBkts, items`hhNext, items`hhPrev
    ensures |chains'| == newBkts.Length && Hung(newBkts, chains', items) && Exactly(chains', items)
    ensures Multiples(newBkts, ideal) && nonideal == Excess(chains', ideal)
  {
    hide Hung, Exactly, Walkable, Multiples, Excess;
    nonideal, chains' := 0, seq(newBkts.Length, _ => []);
    EmptyHung(newBkts, newBkts.Length);
    EmptyMultiples(newBkts, ideal);
    ExcessEmpty(newBkts.Length, ideal);
    HungWalkable(bkts, chains, items);
    WalkableFacts(bkts, chains, 0, items);
    for i := 0 to bkts.Length
      invariant |chains'| == newBkts.Length && Hung(newBkts, chains', Upto(chains, i)) && Exactly(chains', Upto(chains, i))
      invariant Walkable(bkts, chains, i, items) && Upto(chains, i) <= items
      invariant Multiples(newBkts, ideal) && nonideal == Excess(chains', ideal)
    {
      nonideal, chains' := MoveChain(bkts, newBkts, i, ideal, nonideal, log2, chains, chains', items);
    }
    UptoAll(chains, items);
  }

  lemma WalkableFacts(bkts: array<Bucket>, chains: seq<seq<Item>>, from: nat, items: set<Item>)
    requires Walkable(bkts, chains, from, items)
    ensures bkts.Length == |chains|
    ensures forall b, i :: 0 <= b < |chains| && 0 <= i < |chains[b]| ==> chains[b][i] in items
    ensures from < |chains| ==> First(bkts[from].head, chains[from]) && NextLinked(chains[from])
  {
  }

  /** One old chain moved. */
  method MoveChain(bkts: array<Bucket>, newBkts: array<Bucket>, i: nat, ideal: nat, nonideal0: nat, ghost log2: nat,
                   ghost chains: seq<seq<Item>>, ghost chains0: seq<seq<Item>>, ghost items: set<Item>)
    returns (nonideal: nat, ghost chains': seq<seq<Item>>)
    requires bkts != newBkts && ideal >= 1 && Exactly(chains, items) && i < |chains|
    requires Walkable(bkts, chains, i, items) && Upto(chains, i) <= items
    requires |chains0| == newBkts.Length && Hung(newBkts, chains0, Upto(chains, i)) && Exactly(chains0, Upto(chains, i))
    requires newBkts.Length == Pow2(log2) && Multiples(newBkts, ideal) && nonideal0 == Excess(chains0, ideal)
    modifies newBkts, items`hhNext, items`hhPrev
    ensures |chains'| == newBkts.Length && Hung(newBkts, chains', Upto(chains, i + 1)) && Exactly(chains', Upto(chains, i + 1))
    ensures Walkable(bkts, chains, i + 1, items) && Upto(chains, i + 1) <= items
    ensures Multiples(newBkts, ideal) && nonideal == Excess(chains', ideal)
  {
    hide Hung, Exactly, NextLinked, Multiples, Upto;
    UptoNext(chains, items, i);
    UptoStep(chains, i);
    WalkableFacts(bkts, chains, i, items);
    nonideal, chains' := Redistribute(bkts[i].head, newBkts, ideal, nonideal0, log2, chains[i], chains0, Upto(chains, i));
    forall k | i + 1 <= k < |chains| ensures NextLinked(chains[k]) {
    }
  }

  lemma UptoStep(chains: seq<seq<Item>>, n: nat)
    requires n < |chains|
    ensures Upto(chains, n + 1) == Upto(chains, n) + Members(chains[n])
  {
  }

  // ---------- the insertion-order list ----------

  ghost predicate Ordered(s: seq<Item>)
    reads s`next, s`prev
  {
    && (forall i, j :: 0 <= i < |s| && j == i + 1 < |s| ==> s[i].next == s[j] && s[j].prev == s[i])
    && (s != [] ==> s[0].prev == null && s[|s| - 1].next == null)
  }

  ghost predicate Last(p: Item?, s: seq<Item>) {
    p == if s == [] then null else s[|s| - 1]
  }

  /** Appending to the order, uthash.h:190-201. */
  method OrderAppend(x: Item, tail: Item?, ghost order: seq<Item>)
    requires Ordered(order) && Distinct(order) && Last(tail, order) && x !in order
    modifies x`next, x`prev, order`next
    ensures Ordered(order + [x]) && Distinct(order + [x])
  {
    x.next := null;
    if tail != null {
      tail.next := x;
    }
    x.prev := tail;
  }

  lemma WithoutMembers(s: seq<Item>, i: nat)
    requires i < |s| && Distinct(s)
    ensures Distinct(Without(s, i)) && Members(Without(s, i)) == Members(s) - {s[i]}
  {
    var r := Without(s, i);
    assert forall j :: 0 <= j < |r| ==> r[j] == s[if j < i then j else j + 1];
    forall x | x in s && x != s[i] ensures x in r {
      var j :| 0 <= j < |s| && s[j] == x;
      assert r[if j < i then j else j - 1] == x;
    }
  }

  /** Unlinking from the order, uthash.h:240-253; head and tail as they become. */
  method OrderUnlink(x: Item, head: Item?, tail: Item?, ghost order: seq<Item>, ghost i: nat)
    returns (head': Item?, tail': Item?)
    requires Ordered(order) && Distinct(order) && First(head, order) && Last(tail, order) && i < |order| && order[i] == x && |order| > 1
    modifies order`next, order`prev
    ensures Ordered(Without(order, i)) && First(head', Without(order, i)) && Last(tail', Without(order, i))
  {
    Neighbours(order, i);
    ghost var before, after := x.prev, x.next;
    head', tail' := head, tail;
    if x == tail {
      tail' := x.prev;
    }
    if x.prev != null {
      x.prev.next := x.next;
    } else {
      head' := x.next;
    }
    if x.next != null {
      x.next.prev := x.prev;
    }
    ghost var r := Without(order, i);
    assert forall j :: 0 <= j < |order| && order[j] != before ==> order[j].next == old(order[j].next);
    assert forall j :: 0 <= j < |order| && order[j] != after ==> order[j].prev == old(order[j].prev);
    forall j, k | 0 <= j < |r| && k == j + 1 < |r| ensures r[j].next == r[k] && r[k].prev == r[j] {
      assert r[j] == order[if j < i then j else j + 1] && r[k] == order[if k < i then k else k + 1];
    }
  }

  lemma Neighbours(s: seq<Item>, i: nat)
    requires Ordered(s) && i < |s|
    ensures s[i].prev == if i > 0 then s[i - 1] else null
    ensures s[i].next == if i + 1 < |s| then s[i + 1] else null
  {
    if i > 0 { assert s[i - 1].next == s[i]; }
    if i + 1 < |s| { assert s[i].next == s[i + 1]; }
  }

  lemma ChainNeighbours(s: seq<Item>, i: nat)
    requires Chained(s) && i < |s|
    ensures s[i].hhPrev == if i > 0 then s[i - 1] else null
    ensures s[i].hhNext == if i + 1 < |s| then s[i + 1] else null
  {
    if i > 0 { assert s[i - 1].hhNext == s[i]; }
    if i + 1 < |s| { assert s[i].hhNext == s[i + 1]; }
  }

  /** The links of HASH_DEL_IN_BKT, uthash.h:679-687; the chain's head as it becomes. */
  method ChainUnlink(x: Item, head: Item?, ghost chain: seq<Item>, ghost i: nat) returns (head': Item?)
    requires Chained(chain) && Distinct(chain) && First(head, chain) && i < |chain| && chain[i] == x
    modifies chain`hhNext, chain`hhPrev
    ensures Chained(Without(chain, i)) && First(head', Without(chain, i))
  {
    ChainNeighbours(chain, i);
    ghost var before, after := x.hhPrev, x.hhNext;
    head' := head;
    if head == x {
      head' := x.hhNext;
    }
    if x.hhPrev != null {
      x.hhPrev.hhNext := x.hhNext;
    }
    if x.hhNext != null {
      x.hhNext.hhPrev := x.hhPrev;
    }
    ghost var r := Without(chain, i);
    assert forall j :: 0 <= j < |chain| && chain[j] != before ==> chain[j].hhNext == old(chain[j].hhNext);
    assert forall j :: 0 <= j < |chain| && chain[j] != after ==> chain[j].hhPrev == old(chain[j].hhPrev);
    forall j, k | 0 <= j < |r| && k == j + 1 < |r| ensures r[j].hhNext == r[k] && r[k].hhPrev == r[j] {
      assert r[j] == chain[if j < i then j else j + 1] && r[k] == chain[if k < i then k else k + 1];
    }
  }

  /** ChainUnlink keeps the links of all chains. */
  method UnlinkFrom(x: Item, head: Item?, b: nat, ghost i: nat, ghost chains: seq<seq<Item>>, ghost items: set<Item>)
    returns (head': Item?)
    requires Exactly(chains, items) && Links(chains, items) && b < |chains| && i < |chains[b]| && chains[b][i] == x && First(head, chains[b])
    modifies chains[b]`hhNext, chains[b]`hhPrev
    ensures Links(chains[b := Without(chains[b], i)], items - {x}) && First(head', Without(chains[b], i))
  {
    hide Exactly, Chained;
    ghost var c := chains[b := Without(chains[b], i)];
    ExactlyRemove(chains, items, b, i);
    DistinctChain(chains, items, b);
    head' := ChainUnlink(x, head, chains[b], i);
    forall a | 0 <= a < |c| ensures Chained(c[a]) {
      if a != b { ApartChains(chains, items, a, b); }
    }
    forall a, k | 0 <= a < |c| && 0 <= k < |c[a]| ensures c[a][k] in items - {x} {
      ChainWithin(c, items - {x}, a);
    }
  }

  lemma DistinctChain(chains: seq<seq<Item>>, items: set<Item>, b: nat)
    requires Exactly(chains, items) && b < |chains|
    ensures Distinct(chains[b])
  {
  }

  lemma ApartChains(chains: seq<seq<Item>>, items: set<Item>, a: nat, b: nat)
    requires Exactly(chains, items) && a < |chains| && b < |chains| && a != b
    ensures forall i :: 0 <= i < |chains[a]| ==> chains[a][i] !in chains[b]
  {
    forall i | 0 <= i < |chains[a]| ensures chains[a][i] !in chains[b] {
      assert chains[a][i].hashv % |chains| == a;
    }
  }

  /** HASH_DEL_IN_BKT, uthash.h:677-687. */
  method RemoveFrom(bkts: array<Bucket>, b: nat, x: Item, ghost i: nat, ghost chains: seq<seq<Item>>, ghost items: set<Item>)
    requires Hung(bkts, chains, items) && Exactly(chains, items) && b < |chains| && i < |chains[b]| && chains[b][i] == x
    modifies bkts, chains[b]`hhNext, chains[b]`hhPrev
    ensures var c := chains[b := Without(chains[b], i)]; Hung(bkts, c, items - {x}) && Exactly(c, items - {x})
    ensures forall a :: 0 <= a < bkts.Length ==> bkts[a].expandMult == old(bkts[a].expandMult)
  {
    hide Exactly, Links;
    ExactlyRemove(chains, items, b, i);
    var head := UnlinkFrom(x, bkts[b].head, b, i, chains, items);
    bkts[b] := bkts[b].(count := bkts[b].count - 1, head := head);
  }

  /** HASH_FIND_IN_BKT, uthash.h:642-658. */
  method FindInBucket(head: Item?, key: string, ghost chain: seq<Item>) returns (out: Item?)
    requires First(head, chain) && Chained(chain)
    ensures out != null ==> out in chain && out.key == key
    ensures out == null ==> forall i :: 0 <= i < |chain| ==> chain[i].key != key
  {
    out := head;
    ghost var j := 0;
    while out != null
      invariant 0 <= j <= |chain| && out == (if j < |chain| then chain[j] else null)
      invariant forall i :: 0 <= i < j ==> chain[i].key != key
      decreases |chain| - j
    {
      if out.key == key {
        break;
      }
      ChainNeighbours(chain, j);
      out, j := out.hhNext, j + 1;
    }
  }

  /** The user's head pointer with the table record behind it; head == null means that
      there is no table. */
  class Table {
    const hash: string -> nat
    var head: Item?
    var tail: Item?
    var buckets: array?<Bucket>
    var numBuckets: nat
    var log2: nat
    var numItems: nat
    var ideal: nat
    var nonideal: nat
    var ineff: nat
    var noexpand: bool
    ghost var order: seq<Item>
    ghost var chains: seq<seq<Item>>

    /** The buckets hold exactly the given items. */
    ghost predicate Indexed(items: set<Item>)
      reads this`buckets, this`numBuckets, this`log2, this`chains, buckets, items`hhNext, items`hhPrev
    {
      && buckets != null && numBuckets == Pow2(log2) == |chains| == buckets.Length
      && Exactly(chains, items) && Hung(buckets, chains, items)
    }

    /** The insertion order. */
    ghost predicate Listed()
      reads this`head, this`tail, this`order, order`next, order`prev
    {
      && Ordered(order) && Distinct(order) && First(head, order) && (order != [] ==> Last(tail, order))
    }

    ghost predicate Valid()
      reads this, buckets, order
    {
      && Listed()
      && (order != [] ==> numItems == |order| && Indexed(Members(order)))
      && (forall i :: 0 <= i < |order| ==> order[i].hashv == hash(order[i].key))
    }

    constructor (hash: string -> nat)
      ensures Valid() && order == [] && this.hash == hash
    {
      this.hash := hash;
      head, tail, buckets, order, chains := null, null, null, [], [];
    }

    /** HASH_MAKE_TABLE, uthash.h:153-172. */
    method MakeTable()
      modifies this`tail, this`buckets, this`numBuckets, this`log2, this`numItems, this`ideal, this`nonideal, this`ineff, this`noexpand, this`chains
      ensures Indexed({}) && fresh(buckets) && tail == head && (forall b :: 0 <= b < buckets.Length ==> buckets[b] == Bucket(null, 0, 0))
      ensures numBuckets == INITIAL_NUM_BUCKETS && numItems == 0 && !noexpand && ineff == 0 && ideal == 0 && nonideal == 0
    {
      hide Exactly, Hung;
      tail, numBuckets, log2 := head, INITIAL_NUM_BUCKETS, INITIAL_NUM_BUCKETS_LOG2;
      numItems, ideal, nonideal, ineff, noexpand := 0, 0, 0, 0, false;
      buckets := new Bucket[INITIAL_NUM_BUCKETS](_ => Bucket(null, 0, 0));
      chains := seq(INITIAL_NUM_BUCKETS, _ => []);
      EmptyHung(buckets, INITIAL_NUM_BUCKETS);
      assert Pow2(5) == 32;
    }

    /** What a doubling leaves behind: the chain bound is the number of items over the
        number of buckets, rounded up; the multiples and the non-ideal items are exact. */
    ghost predicate Balanced()
      reads this`buckets, this`numBuckets, this`numItems, this`ideal, this`nonideal, this`chains, buckets
    {
      && buckets != null && ideal >= 1 && (ideal - 1) * numBuckets < numItems <= ideal * numBuckets
      && Multiples(buckets, ideal) && nonideal == Excess(chains, ideal)
    }

    /** HASH_EXPAND_BUCKETS, uthash.h:718-762. */
    method Expand(ghost items: set<Item>)
      requires Indexed(items) && numItems > 0
      modifies this`buckets, this`numBuckets, this`log2, this`ideal, this`nonideal, this`ineff, this`noexpand, this`chains, items`hhNext, items`hhPrev
      ensures Indexed(items) && fresh(buckets) && numBuckets == 2 * old(numBuckets)
      ensures Balanced()
      ensures ineff == (if nonideal > numItems / 2 then old(ineff) + 1 else 0) && noexpand == (old(noexpand) || ineff > 1)
    {
      hide Exactly, Hung, And, Shr, Multiples, IdealLength, Excess;
      IdealPositive(numItems, log2);
      ideal := IdealLength(numItems, log2);
      var newBuckets := new Bucket[2 * numBuckets](_ => Bucket(null, 0, 0));
      assert Pow2(log2 + 1) == 2 * Pow2(log2);
      nonideal, chains := Rehash(buckets, newBuckets, ideal, log2 + 1, chains, items);
      numBuckets, log2, buckets := numBuckets * 2, log2 + 1, newBuckets;
      HalfIsShr(numItems);
      ineff := if nonideal > Shr(numItems, 1) then ineff + 1 else 0;
      if ineff > 1 {
        noexpand := true;
      }
    }

    /** Another item in x's bucket makes the table double its buckets. */
    ghost predicate Fills(x: Item)
      reads this`buckets, this`noexpand, buckets
    {
      && buckets != null && buckets.Length > 0 && !noexpand
      && var bucket := buckets[x.hashv % buckets.Length];
         bucket.count + 1 >= (bucket.expandMult + 1) * BKT_CAPACITY_THRESH
    }

    /** That is, when the bucket reaches ten items for each of its multiples plus one. */
    lemma FillsIff(x: Item)
      requires buckets != null && buckets.Length > 0
      ensures var bucket := buckets[x.hashv % buckets.Length];
        Fills(x) <==> !noexpand && bucket.count + 1 >= 10 * bucket.expandMult + 10
    {
    }

    /** HASH_ADD_TO_BKT, uthash.h:661-674. */
    method AddToBucket(x: Item, ghost items: set<Item>)
      requires Indexed(items) && x !in items && numItems > 0
      modifies this`buckets, this`numBuckets, this`log2, this`ideal, this`nonideal, this`ineff, this`noexpand, this`chains, buckets
      modifies x`hhNext, x`hhPrev, items`hhNext, items`hhPrev
      ensures Indexed(items + {x}) && (buckets == old(buckets) || fresh(buckets))
      ensures numBuckets == old(numBuckets) * (if old(Fills(x)) then 2 else 1)
      ensures if old(Fills(x))
        then Balanced() && ineff == (if nonideal > numItems / 2 then old(ineff) + 1 else 0) && noexpand == (ineff > 1)
        else ideal == old(ideal) && nonideal == old(nonideal) && ineff == old(ineff) && noexpand == old(noexpand)
      ensures !old(Fills(x)) ==> buckets == old(buckets) && forall a :: 0 <= a < buckets.Length ==> buckets[a].expandMult == old(buckets[a].expandMult)
    {
      hide Exactly, Hung, And;
      MaskIsMod(x.hashv, log2);
      var b := And(x.hashv, numBuckets - 1);
      ChainWithin(chains, items, b);
      PushFront(buckets, b, x, chains, items);
      chains := chains[b := [x] + chains[b]];
      if buckets[b].count >= (buckets[b].expandMult + 1) * BKT_CAPACITY_THRESH && !noexpand {
        Expand(items + {x});
      }
    }

    /** The head, the order and the count of HASH_ADD_KEYPTR, uthash.h:190-203. */
    method Enlist(x: Item)
      requires Listed() && x !in order && (order != [] ==> numItems == |order| && Indexed(Members(order)))
      modifies this, x`next, x`prev, order`next
      ensures Listed() && order == old(order) + [x] && numItems == |order| && Indexed(Members(old(order)))
      ensures old(order) == [] ==> fresh(buckets) && numBuckets == INITIAL_NUM_BUCKETS && !Fills(x)
      ensures old(order) != [] ==> buckets == old(buckets) && numBuckets == old(numBuckets) && noexpand == old(noexpand)
      ensures old(order) != [] ==> ideal == old(ideal) && nonideal == old(nonideal) && ineff == old(ineff)
    {
      hide Indexed, Ordered;
      assert order == [] ==> Members(order) == {};
      if head == null {
        head := x;
        OrderAppend(x, null, order);
        MakeTable();
      } else {
        OrderAppend(x, tail, order);
        tail := x;
      }
      order := order + [x];
      numItems := numItems + 1;
    }

    /** HASH_ADD_KEYPTR, uthash.h:187-209. */
    method Add(x: Item)
      requires Valid() && x !in order && x.hashv == hash(x.key)
      modifies this, buckets, x, order
      ensures Valid() && order == old(order) + [x]
      ensures buckets == old(buckets) || fresh(buckets)
      ensures numBuckets == if old(order) == [] then INITIAL_NUM_BUCKETS else old(numBuckets) * (if old(Fills(x)) then 2 else 1)
      ensures old(order) != [] && old(Fills(x)) ==>
        Balanced() && ineff == (if nonideal > numItems / 2 then old(ineff) + 1 else 0) && noexpand == (ineff > 1)
      ensures old(order) != [] && !old(Fills(x)) ==>
        ideal == old(ideal) && nonideal == old(nonideal) && ineff == old(ineff) && noexpand == old(noexpand)
    {
      hide Indexed, Ordered, Listed;
      ghost var items := Members(order);
      assert items + {x} == Members(order + [x]);
      Enlist(x);
      AddToBucket(x, items);
    }

    /** The order of HASH_DELETE, uthash.h:240-253. */
    method Unlist(x: Item, ghost i: nat)
      requires Listed() && i < |order| && order[i] == x && |order| > 1
      modifies this`head, this`tail, this`order, order`next, order`prev
      ensures Listed() && order == Without(old(order), i)
    {
      hide Ordered;
      WithoutMembers(order, i);
      head, tail := OrderUnlink(x, head, tail, order, i);
      order := Without(order, i);
    }

    /** The bucket of HASH_DELETE, uthash.h:254-255. */
    method Unindex(x: Item, ghost items: set<Item>)
      requires Indexed(items) && x in items
      modifies this`chains, buckets, items`hhNext, items`hhPrev
      ensures Indexed(items - {x})
      ensures forall a :: 0 <= a < buckets.Length ==> buckets[a].expandMult == old(buckets[a].expandMult)
    {
      hide Exactly, Hung, And;
      MaskIsMod(x.hashv, log2);
      var b := And(x.hashv, numBuckets - 1);
      ghost var k := PlaceIn(chains, items, x, b);
      ChainWithin(chains, items, b);
      RemoveFrom(buckets, b, x, k, chains, items);
      chains := chains[b := Without(chains[b], k)];
    }

    /** HASH_DELETE, uthash.h:228-259. */
    method Delete(x: Item, ghost i: nat)
      requires Valid() && i < |order| && order[i] == x
      modifies this, buckets, order
      ensures Valid() && order == Without(old(order), i)
      ensures if order == [] then head == null && buckets == null else buckets == old(buckets) && numBuckets == old(numBuckets)
      ensures order != [] ==> ideal == old(ideal) && nonideal == old(nonideal) && ineff == old(ineff) && noexpand == old(noexpand)
      ensures order != [] ==> forall a :: 0 <= a < buckets.Length ==> buckets[a].expandMult == old(buckets[a].expandMult)
    {
      hide Indexed, Ordered, Listed;
      ghost var items := Members(order);
      OrderFacts(i);
      if x.prev == null && x.next == null {
        head, buckets := null, null;
        order := [];
        Dropped();
      } else {
        HasBuckets(items);
        Unlist(x, i);
        assert buckets[..] == old(buckets[..]);
        Unindex(x, items);
        numItems := numItems - 1;
      }
    }

    lemma HasBuckets(items: set<Item>)
      requires Indexed(items)
      ensures buckets != null
    {
    }

    lemma OrderFacts(i: nat)
      requires Listed() && i < |order|
      ensures order[i].prev == null && order[i].next == null <==> |order| == 1
      ensures Without(order, i) == [] <==> |order| == 1
      ensures Members(Without(order, i)) == Members(order) - {order[i]}
      ensures |Without(order, i)| == |order| - 1 && forall j :: 0 <= j < |order| - 1 ==> Without(order, i)[j] in order
    {
      Neighbours(order, i);
      WithoutMembers(order, i);
    }

    lemma Dropped()
      requires order == [] && head == null
      ensures Listed()
    {
    }

    /** HASH_FIND, uthash.h:104-115: an item with the key iff the insertion order has one. */
    method Find(key: string) returns (out: Item?)
      requires Valid()
      ensures out != null ==> out in order && out.key == key
      ensures out == null <==> forall i :: 0 <= i < |order| ==> order[i].key != key
    {
      hide Exactly, And;
      out := null;
      if head != null {
        MaskIsMod(hash(key), log2);
        var b := And(hash(key), numBuckets - 1);
        ChainWithin(chains, Members(order), b);
        out := FindInBucket(buckets[b].head, key, chains[b]);
        if out == null {
          forall i | 0 <= i < |order| ensures order[i].key != key {
            if order[i].key == key {
              ghost var k := PlaceIn(chains, Members(order), order[i], b);
            }
          }
        }
      }
    }
  }

  ghost function PlaceIn(chains: seq<seq<Item>>, items: set<Item>, x: Item, b: nat): (k: nat)
    requires Exactly(chains, items) && x in items && b == x.hashv % |chains|
    ensures k < |chains[b]| && chains[b][k] == x
  {
    var k :| 0 <= k < |chains[b]| && chains[b][k] == x;
    k
  }

  lemma IdealPositive(items: nat, log2: nat)
    requires items > 0
    ensures var n, c := 2 * Pow2(log2), IdealLength(items, log2); c >= 1 && (c - 1) * n < items <= c * n
  {
    hide IdealLength;
    IdealIsCeiling(items, log2);
  }

  lemma HalfIsShr(n: nat)
    ensures Shr(n, 1) == n / 2
  {
    assert Shr(n / 2, 0) == n / 2;
  }
}
