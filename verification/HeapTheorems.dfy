/** What the heap invariant of malloc/mm_alloc.c means over whole runs. */
module HeapTheorems {
  import opened Basics
  import opened Tiling
  import opened FreeList
  import opened MmAlloc

  // ---------- conservation ----------

  /** The size fields of all headers. */
  ghost function Sizes(mem: Memory): (r: map<int, int>)
    ensures r.Keys == mem.Keys
  {
    map b | b in mem :: mem[b].size
  }

  lemma PartitionFacts(mem: Memory, free: seq<int>, live: set<int>, pro: set<int>, ext: map<int, int>)
    requires |free| >= 1 && free[0] in mem && Ascending(free) && Roles(mem, free, live, pro, ext)
    ensures Elements(free) <= mem.Keys && live <= mem.Keys && free[0] in Elements(free)
    ensures var blocks := Elements(free) - {free[0]};
      && ext.Keys == blocks + live + pro && blocks !! live && blocks + live !! pro
      && forall b :: b in blocks || b in live ==> ext[b] == mem[b].size
    ensures forall b :: b in pro ==> ext[b] == 1
  {
    assert free[0] in Elements(free);
    assert forall b :: b in live ==> b in mem;
    forall b | b in Elements(free) - {free[0]} ensures b !in live && b !in pro && b in mem && ext[b] == mem[b].size {
      var k :| 0 <= k < |free| && free[k] == b;
    }
  }

  /** Units of free blocks, units of live blocks and prologue headers together
      are the units obtained from sbrk. */
  lemma Conservation(mem: Memory, free: seq<int>, live: set<int>, pro: set<int>, ext: map<int, int>)
    requires Heap(mem, free, live, pro, ext)
    ensures Elements(free) <= mem.Keys && live <= mem.Keys
    ensures Total(Sizes(mem), Elements(free)) + Total(Sizes(mem), live) + |pro| == |mem.Keys|
  {
    hide Tiles, ApartBut, Roles, Elements, Ascending;
    TilesCount(ext, mem.Keys);
    PartitionFacts(mem, free, live, pro, ext);
    var blocks := Elements(free) - {free[0]};
    TotalUnion(ext, blocks + live, pro);
    TotalUnion(ext, blocks, live);
    TotalOnes(ext, pro);
    TotalSame(ext, Sizes(mem), blocks);
    TotalSame(ext, Sizes(mem), live);
    TotalRemove(Sizes(mem), Elements(free), free[0]);
  }

  lemma {:induction false} TotalOnes(ext: map<int, int>, keys: set<int>)
    requires keys <= ext.Keys && forall b :: b in keys ==> ext[b] == 1
    ensures Total(ext, keys) == |keys|
    decreases keys
  {
    if keys != {} {
      var b := Pick(keys);
      TotalRemove(ext, keys, b);
      TotalOnes(ext, keys - {b});
    }
  }

  // ---------- fragmentation ----------

  /** A unit in no live or prologue block is in a free one. */
  lemma FreeCover(mem: Memory, free: seq<int>, live: set<int>, pro: set<int>, ext: map<int, int>, u: int) returns (k: nat)
    requires Heap(mem, free, live, pro, ext) && u in mem
    requires forall c :: c in live || c in pro ==> !Within(ext, c, u)
    ensures 1 <= k < |free| && Within(ext, free[k], u)
  {
    var b :| Within(ext, b, u);
    hide Tiles, Circle;
    k :| 0 <= k < |free| && free[k] == b;
  }

  /** On contiguous memory the unit just above a free block, if another free
      block follows, belongs to a live block between the two. */
  lemma LiveBetween(mem: Memory, free: seq<int>, live: set<int>, pro: set<int>, ext: map<int, int>, i: nat) returns (b: int)
    requires Heap(mem, free, live, pro, ext) && Contiguous(mem.Keys) && 1 <= i < |free| - 1
    ensures b in live && free[i] < b < free[i + 1]
  {
    hide Circle, Roles, Tiles;
    BlockFacts(mem, free, live, pro, ext, i);
    GapFacts(mem, free, live, pro, ext, i);
    var u := free[i] + ext[free[i]];
    if forall c :: c in live || c in pro ==> !Within(ext, c, u) {
      var k := FreeCover(mem, free, live, pro, ext, u);
      StartsAt(ext, mem.Keys, free[i], free[k], u);
      NoTouch(mem, free, live, pro, ext, i, k);
    } else {
      b :| (b in live || b in pro) && Within(ext, b, u);
      StartsAt(ext, mem.Keys, free[i], b, u);
    }
  }

  lemma GapFacts(mem: Memory, free: seq<int>, live: set<int>, pro: set<int>, ext: map<int, int>, i: nat)
    requires Heap(mem, free, live, pro, ext) && Contiguous(mem.Keys) && 1 <= i < |free| - 1
    ensures free[i] in ext && free[i] + ext[free[i]] in mem && free[i] < free[i] + ext[free[i]] < free[i + 1]
    ensures forall b :: b in pro ==> b < free[i]
  {
    BlockFacts(mem, free, live, pro, ext, i);
    hide Tiles;
    assert free[i] in mem && free[i + 1] in mem;
  }

  ghost function LiveBelow(live: set<int>, a: int): set<int> {
    set b | b in live && b < a
  }

  lemma {:induction false} LiveBelowCount(mem: Memory, free: seq<int>, live: set<int>, pro: set<int>, ext: map<int, int>, i: nat)
    requires Heap(mem, free, live, pro, ext) && Contiguous(mem.Keys) && 1 <= i < |free|
    ensures |LiveBelow(live, free[i])| >= i - 1
  {
    hide Tiles, Roles, ApartBut;
    if i > 1 {
      LiveBelowCount(mem, free, live, pro, ext, i - 1);
      var b := LiveBetween(mem, free, live, pro, ext, i - 1);
      var s, t := LiveBelow(live, free[i - 1]) + {b}, LiveBelow(live, free[i]);
      assert s <= t;
      SubsetSize(s, t);
    }
  }

  lemma SubsetSize(s: set<int>, t: set<int>)
    requires s <= t
    ensures |s| <= |t|
  {
    assert t == s + (t - s);
  }

  /** With contiguous memory the free blocks never outnumber the live ones by
      more than one. */
  lemma FewFreeBlocks(mem: Memory, free: seq<int>, live: set<int>, pro: set<int>, ext: map<int, int>)
    requires Heap(mem, free, live, pro, ext) && Contiguous(mem.Keys)
    ensures |free| - 1 <= |live| + 1
  {
    hide Circle, Roles, Tiles, Contiguous;
    if |free| > 1 {
      LiveBelowCount(mem, free, live, pro, ext, |free| - 1);
      SubsetSize(LiveBelow(live, free[|free| - 1]), live);
    }
  }

  // ---------- the free list is determined by the live blocks ----------

  /** Two heaps over the same units, with the same live blocks and prologues. */
  ghost predicate SameUse(live: set<int>, pro: set<int>, units: set<int>, ext: map<int, int>, units': set<int>, e: map<int, int>) {
    && units == units'
    && (forall b :: b in live || b in pro ==> b in ext && b in e && ext[b] == e[b])
  }

  /** A unit of a free block is in no live or prologue block. */
  lemma FreeUnit(mem: Memory, free: seq<int>, live: set<int>, pro: set<int>, ext: map<int, int>, i: nat, u: int)
    requires Heap(mem, free, live, pro, ext) && 1 <= i < |free| && Within(ext, free[i], u)
    ensures u in mem
    ensures forall c :: c in live || c in pro ==> !Within(ext, c, u)
  {
    forall c | c in live || c in pro ensures !Within(ext, c, u) {
      assert c in ext && c != free[i];
      assert c < free[i] ==> c + ext[c] <= free[i];
      assert free[i] < c ==> free[i] + ext[free[i]] <= c;
    }
  }

  /** No free block ends where another begins. */
  lemma NoTouch(mem: Memory, free: seq<int>, live: set<int>, pro: set<int>, ext: map<int, int>, k: nat, i: nat)
    requires Heap(mem, free, live, pro, ext) && 1 <= k < |free| && 1 <= i < |free|
    ensures free[k] in ext && free[k] + ext[free[k]] != free[i]
  {
    BlockFacts(mem, free, live, pro, ext, k);
    hide Tiles;
    if k < i {
      assert k + 1 < i ==> free[k + 1] < free[i];
    }
    assert k > i ==> free[i] < free[k];
  }

  /** Every free block of one heap is a free block of the other. */
  lemma SameBase(live: set<int>, pro: set<int>, mem: Memory, free: seq<int>, ext: map<int, int>,
                 m: Memory, freed: seq<int>, e: map<int, int>, i: nat) returns (j: nat)
    requires Heap(mem, free, live, pro, ext) && Heap(m, freed, live, pro, e) && SameUse(live, pro, mem.Keys, ext, m.Keys, e)
    requires 1 <= i < |free|
    ensures 1 <= j < |freed| && freed[j] == free[i]
  {
    hide Circle, Roles, Tiles;
    BlockFacts(mem, free, live, pro, ext, i);
    FreeUnit(mem, free, live, pro, ext, i, free[i]);
    j := FreeCover(m, freed, live, pro, e, free[i]);
    if freed[j] < free[i] {
      FreeUnit(m, freed, live, pro, e, j, free[i] - 1);
      var k := FreeCover(mem, free, live, pro, ext, free[i] - 1);
      BlockFacts(mem, free, live, pro, ext, k);
      EndsAt(ext, mem.Keys, free[k], free[i]);
      NoTouch(mem, free, live, pro, ext, k, i);
    }
  }

  lemma BlockFacts(mem: Memory, free: seq<int>, live: set<int>, pro: set<int>, ext: map<int, int>, i: nat)
    requires Heap(mem, free, live, pro, ext) && 1 <= i < |free|
    ensures free[i] in ext && ext[free[i]] >= 1 && Within(ext, free[i], free[i]) && Tiles(ext, mem.Keys)
  {
    assert free[i] in Elements(free);
  }

  lemma EndsAt(ext: map<int, int>, units: set<int>, d: int, b: int)
    requires Tiles(ext, units) && d in ext && b in ext && Within(ext, d, b - 1)
    ensures d + ext[d] == b
  {
  }

  /** ... and has at most the same size there. */
  lemma SameExtent(live: set<int>, pro: set<int>, mem: Memory, free: seq<int>, ext: map<int, int>,
                   m: Memory, freed: seq<int>, e: map<int, int>, i: nat, j: nat)
    requires Heap(mem, free, live, pro, ext) && Heap(m, freed, live, pro, e) && SameUse(live, pro, mem.Keys, ext, m.Keys, e)
    requires 1 <= i < |free| && 1 <= j < |freed| && freed[j] == free[i]
    ensures free[i] in ext && free[i] in e && e[free[i]] <= ext[free[i]]
  {
    hide Circle, Roles, Tiles;
    BlockFacts(mem, free, live, pro, ext, i);
    BlockFacts(m, freed, live, pro, e, j);
    var u := free[i] + ext[free[i]];
    if u < free[i] + e[free[i]] {
      FreeUnit(m, freed, live, pro, e, j, u);
      var k := FreeCover(mem, free, live, pro, ext, u);
      BlockFacts(mem, free, live, pro, ext, k);
      StartsAt(ext, mem.Keys, free[i], free[k], u);
      NoTouch(mem, free, live, pro, ext, i, k);
    }
  }

  lemma StartsAt(ext: map<int, int>, units: set<int>, b: int, d: int, u: int)
    requires Tiles(ext, units) && b in ext && u == b + ext[b] && Within(ext, d, u)
    ensures d == u
  {
  }

  ghost predicate AllIn(free: seq<int>, freed: seq<int>) {
    forall i :: 0 <= i < |free| ==> free[i] in freed
  }

  lemma SameFirst(free: seq<int>, freed: seq<int>)
    requires Ascending(free) && Ascending(freed) && AllIn(free, freed) && AllIn(freed, free)
    ensures (free == [] <==> freed == []) && (free != [] ==> free[0] == freed[0])
  {
    if free != [] { assert free[0] in freed; }
    if freed != [] { assert freed[0] in free; }
  }

  lemma Tail(free: seq<int>, freed: seq<int>)
    requires Ascending(free) && free != [] && freed != [] && free[0] == freed[0] && AllIn(free, freed)
    ensures Ascending(free[1..]) && AllIn(free[1..], freed[1..])
  {
    forall i | 0 <= i < |free[1..]| ensures free[1..][i] in freed[1..] {
      assert free[i + 1] in freed && free[0] < free[i + 1];
    }
  }

  lemma {:induction false} AscendingUnique(free: seq<int>, freed: seq<int>)
    requires Ascending(free) && Ascending(freed) && AllIn(free, freed) && AllIn(freed, free)
    ensures free == freed
    decreases |free|
  {
    hide Ascending, AllIn;
    SameFirst(free, freed);
    if free != [] {
      Tail(free, freed);
      Tail(freed, free);
      AscendingUnique(free[1..], freed[1..]);
      assert free == [free[0]] + free[1..] && freed == [freed[0]] + freed[1..];
    }
  }

  lemma FreeSubset(live: set<int>, pro: set<int>, mem: Memory, free: seq<int>, ext: map<int, int>,
                   m: Memory, freed: seq<int>, e: map<int, int>)
    requires Heap(mem, free, live, pro, ext) && Heap(m, freed, live, pro, e) && SameUse(live, pro, mem.Keys, ext, m.Keys, e)
    ensures forall b :: b in free ==> b in freed
    ensures forall b :: b in free && b !in pro ==> b in ext && b in e && e[b] <= ext[b]
  {
    hide Circle, Roles, Tiles;
    ProFacts(mem, free, live, pro, ext);
    ProFacts(m, freed, live, pro, e);
    forall b | b in free ensures b in freed && (b !in pro ==> b in ext && b in e && e[b] <= ext[b]) {
      var i :| 0 <= i < |free| && free[i] == b;
      if i > 0 {
        var j := SameBase(live, pro, mem, free, ext, m, freed, e, i);
        SameExtent(live, pro, mem, free, ext, m, freed, e, i, j);
      }
    }
  }

  /** The prologue in use is the highest one. */
  lemma ProFacts(mem: Memory, free: seq<int>, live: set<int>, pro: set<int>, ext: map<int, int>)
    requires Heap(mem, free, live, pro, ext)
    ensures |free| >= 1 && free[0] in pro && (forall b :: b in pro ==> b <= free[0])
    ensures Ascending(free) && ext.Keys == Elements(free) + live + pro
  {
  }

  /** Free blocks are the maximal runs of unused units: the free list and all its
      sizes depend only on what is live, not on the calls that led there. */
  lemma Canonical(live: set<int>, pro: set<int>, mem: Memory, free: seq<int>, ext: map<int, int>,
                  m: Memory, freed: seq<int>, e: map<int, int>)
    requires Heap(mem, free, live, pro, ext) && Heap(m, freed, live, pro, e) && SameUse(live, pro, mem.Keys, ext, m.Keys, e)
    ensures free == freed && ext == e
  {
    hide Circle, Roles, Tiles, Ascending;
    ProFacts(mem, free, live, pro, ext);
    ProFacts(m, freed, live, pro, e);
    FreeSubset(live, pro, mem, free, ext, m, freed, e);
    FreeSubset(live, pro, m, freed, e, mem, free, ext);
    AscendingUnique(free, freed);
    assert ext.Keys == e.Keys;
    forall b | b in ext ensures ext[b] == e[b] {
      assert b in free || b in live || b in pro;
    }
  }

  /** mm_free undoes mm_malloc: the free list and all block sizes are restored. */
  method MallocThenFree(a: Allocator, size: nat)
    requires a.Valid() && 0 < size <= LARGEST && a.freeptr != NULL && !NoneFits(a.mem, a.free, Units(size))
    modifies a
    ensures a.Valid() && a.free == old(a.free) && a.ext == old(a.ext) && a.live == old(a.live) && a.mem.Keys == old(a.mem.Keys)
  {
    hide Heap, Roles, Tiles, NoneFits, NextFit;
    ghost var live := a.live;
    var p, _ := a.Malloc(size);
    ghost var m, e := a.mem, a.ext;
    var _ := a.Free(p);
    assert a.live == live;
    MallocFreeSame(live, a.pro, old(a.mem), old(a.free), old(a.ext), m, e, a.mem, a.free, a.ext);
  }

  lemma MallocFreeSame(live: set<int>, pro: set<int>, mem: Memory, free: seq<int>, ext: map<int, int>,
                       m: Memory, e: map<int, int>, m': Memory, freed: seq<int>, e': map<int, int>)
    requires Heap(mem, free, live, pro, ext) && Heap(m', freed, live, pro, e') && mem.Keys == m'.Keys
    requires Kept(live, mem, ext, m, e) && Kept(live, m, e, m', e')
    ensures free == freed && ext == e'
  {
    PartitionFacts(mem, free, live, pro, ext);
    PartitionFacts(m', freed, live, pro, e');
    hide Heap, Roles, Tiles, Circle;
    Canonical(live, pro, mem, free, ext, m', freed, e');
  }

  datatype Op = Request(size: nat) | Release(nth: nat) | Write(nth: nat, offset: nat, data: Header)

  /** Every run of requests, releases and client writes from a fresh heap: the live
      blocks are exactly those whose pointers (header address plus one) the client
      holds, no unit is lost, and while sbrk has left no gap the free blocks outnumber
      the live ones by at most one. */
  method Run(ops: seq<Op>) returns (a: Allocator, held: seq<int>)
    requires forall i :: 0 <= i < |ops| && ops[i].Request? ==> ops[i].size <= LARGEST
    ensures fresh(a) && a.Valid()
    ensures a.live == Elements(held)
    ensures Distinct(held)
    ensures a.free != [] ==>
      && Elements(a.free) <= a.mem.Keys && a.live <= a.mem.Keys
      && Total(Sizes(a.mem), Elements(a.free)) + Total(Sizes(a.mem), a.live) + |a.pro| == |a.mem.Keys|
      && (!a.skipped ==> |a.free| - 1 <= |a.live| + 1)
  {
    hide Heap, Roles, Tiles, NoneFits, NextFit, Kept, Circle, Allocator.Valid;
    a := new Allocator();
    held := [];
    for i := 0 to |ops|
      invariant fresh(a) && a.Valid()
      invariant a.live == Elements(held)
      invariant Distinct(held)
    {
      match ops[i] {
        case Request(size) =>
          var p, _ := a.Malloc(size);
          if p != NULL {
            assert Elements(held + [p - 1]) == Elements(held) + {p - 1};
            held := held + [p - 1];
          }
        case Release(nth) =>
          if nth < |held| {
            assert held[nth] in Elements(held);
            a.LivePositive();
            var _ := a.Free(held[nth] + 1);
            ReleaseHeld(held, nth);
            held := Without(held, nth);
          }
        case Write(nth, offset, data) =>
          if nth < |held| {
            assert held[nth] in Elements(held);
            var size := a.SizeOf(held[nth]);
            if offset + 1 < size {
              a.Store(held[nth], held[nth] + 1 + offset, data);
            }
          }
      }
    }
    if a.free != [] {
      a.HeapOf();
      Conservation(a.mem, a.free, a.live, a.pro, a.ext);
      if !a.skipped {
        a.InOneRun();
        FewFreeBlocks(a.mem, a.free, a.live, a.pro, a.ext);
      }
    }
  }

  lemma ReleaseHeld(held: seq<int>, nth: nat)
    requires nth < |held| && Distinct(held)
    ensures Elements(held) - {held[nth]} == Elements(Without(held, nth))
  {
    ElementsWithout(held, nth);
    var rest := Without(held, nth);
    forall i | 0 <= i < |rest| ensures rest[i] != held[nth] {
      assert rest[i] == held[if i < nth then i else i + 1];
    }
  }
}
