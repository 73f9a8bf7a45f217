/** mm_malloc, mm_free, mm_init and extend_heap of malloc/mm_alloc.c. */
module MmAlloc {
  import opened Basics
  import opened Tiling
  import opened FreeList

  /** Every unit of these blocks has kept its contents and its block. */
  ghost predicate Kept(blocks: set<int>, mem: Memory, ext: map<int, int>, m: Memory, e: map<int, int>) {
    && (forall b :: b in blocks ==> b in ext && b in e && e[b] == ext[b])
    && (forall b, u :: b in blocks && Within(ext, b, u) ==> u in mem && u in m && m[u] == mem[u])
  }

  /** A store that hits no header leaves the heap well formed. */
  lemma StoreHeap(mem: Memory, free: seq<int>, live: set<int>, pro: set<int>, ext: map<int, int>, u: int, h: Header)
    requires Heap(mem, free, live, pro, ext) && u in mem && u !in ext
    ensures Heap(mem[u := h], free, live, pro, ext)
  {
    hide Tiles;
    assert mem[u := h].Keys == mem.Keys;
    assert forall i :: 0 <= i < |free| ==> free[i] in ext && free[i] != u;
  }

  lemma PayloadIsNoHeader(ext: map<int, int>, units: set<int>, b: int, u: int)
    requires Tiles(ext, units) && Within(ext, b, u) && u != b
    ensures u !in ext && u in units
  {
  }

  /** Writes to the headers p and bp of other blocks leave these blocks alone. */
  lemma WritesKept(blocks: set<int>, mem: Memory, ext: map<int, int>, p: int, bp: int, m: Memory, e: map<int, int>)
    requires Tiles(ext, mem.Keys) && p in ext && bp in ext && p !in blocks && bp !in blocks
    requires m.Keys == mem.Keys && forall u :: u in mem && u != p && u != bp ==> m[u] == mem[u]
    requires forall b :: b in blocks ==> b in e && b in ext && e[b] == ext[b]
    ensures Kept(blocks, mem, ext, m, e)
  {
    forall b, u | b in blocks && Within(ext, b, u) ensures u in mem && u in m && m[u] == mem[u] {
      OtherBlock(ext, mem.Keys, b, u, bp);
      OtherBlock(ext, mem.Keys, b, u, p);
    }
  }

  /** Writes to the header and to one payload unit of another block leave
      these blocks alone. */
  lemma TakeTailKept(blocks: set<int>, mem: Memory, ext: map<int, int>, b: int, c: int, m: Memory, e: map<int, int>)
    requires Tiles(ext, mem.Keys) && Within(ext, b, c) && b !in blocks
    requires m.Keys == mem.Keys && forall u :: u in mem && u != b && u != c ==> m[u] == mem[u]
    requires forall d :: d in blocks ==> d in e && d in ext && e[d] == ext[d]
    ensures Kept(blocks, mem, ext, m, e)
  {
    forall d, u | d in blocks && Within(ext, d, u) ensures u in mem && u in m && m[u] == mem[u] {
      assert d < b || b < d;
    }
  }

  lemma OtherBlock(ext: map<int, int>, units: set<int>, b: int, u: int, c: int)
    requires Tiles(ext, units) && Within(ext, b, u) && c in ext && c != b
    ensures u != c && u in units
  {
    assert b < c ==> b + ext[b] <= c;
  }

  lemma GrowKept(mem: Memory, free: seq<int>, live: set<int>, pro: set<int>, ext: map<int, int>, m: Memory, bp: int, n: int)
    requires Heap(mem, free, live, pro, ext) && live <= ext.Keys && bp !in ext
    requires forall u :: u in mem ==> u in m && m[u] == mem[u]
    ensures Kept(live, mem, ext, m, ext[bp := n])
  {
    hide Roles, Circle;
  }

  lemma KeptChain(blocks: set<int>, m0: Memory, e0: map<int, int>, m1: Memory, e1: map<int, int>, m2: Memory, e2: map<int, int>)
    requires Kept(blocks, m0, e0, m1, e1) && Kept(blocks, m1, e1, m2, e2)
    ensures Kept(blocks, m0, e0, m2, e2)
  {
    forall b, u | b in blocks && Within(e0, b, u) ensures u in m0 && u in m2 && m2[u] == m0[u] {
      assert Within(e1, b, u);
    }
  }

  /** A circle of only the prologue can be forgotten: its header stays a prologue. */
  lemma ForgetCircle(mem: Memory, free: seq<int>, pro: set<int>, ext: map<int, int>)
    requires Heap(mem, free, {}, pro, ext) && |free| == 1
    ensures Roles(mem, [], {}, pro, ext) && Tiles(ext, mem.Keys)
  {
    hide Tiles, Circle;
    assert Elements(free) == {free[0]};
  }

  lemma KeptNone(mem: Memory, ext: map<int, int>, m: Memory, e: map<int, int>)
    ensures Kept({}, mem, ext, m, e)
  {
  }

  /** Memory as sbrk hands it out: n units of arbitrary contents. */
  method Junk(base: int, n: nat) returns (fill: Memory)
    ensures fill.Keys == Interval(base, n)
  {
    var junk: seq<Header> :| |junk| == n by {
      assert |seq(n, _ => Header(0, 0))| == n;
    }
    fill := map u | u in Interval(base, n) :: junk[u - base];
  }

  class Allocator {
    var mem: Memory
    var freeptr: int
    /** Addresses from here upward are still to be handed out by sbrk. */
    var brk: int
    /** The circle from its prologue upward. */
    ghost var free: seq<int>
    /** Blocks handed out and not freed, by header address. */
    ghost var live: set<int>
    /** Prologue headers, including those left behind by a failed mm_init. */
    ghost var pro: set<int>
    ghost var ext: map<int, int>
    /** Calls of sbrk so far. */
    ghost var sbrks: nat
    /** How many of them failed. */
    ghost var refusals: nat
    /** Whether sbrk has left a gap between two segments. */
    ghost var skipped: bool

    /** The memory lies below brk, in one run unless sbrk has skipped addresses. */
    ghost predicate Packed()
      reads this`mem, this`brk, this`skipped
    {
      && 0 < brk
      && (forall u :: u in mem ==> 0 < u < brk)
      && (!skipped ==> Dense(mem.Keys, brk))
    }

    ghost predicate Valid()
      reads this
    {
      && Packed()
      && (freeptr == NULL <==> free == [])
      && (free == [] ==> live == {} && Roles(mem, free, live, pro, ext) && Tiles(ext, mem.Keys))
      && (free != [] ==> Heap(mem, free, live, pro, ext) && freeptr in free)
    }

    lemma KeptSelf()
      requires Valid()
      ensures Kept(live, mem, ext, mem, ext)
    {
    }

    lemma HeapOf()
      requires Valid() && free != []
      ensures Heap(mem, free, live, pro, ext)
    {
    }

    /** The rover's position on the circle. */
    lemma Rover() returns (r: nat)
      requires Valid() && free != []
      ensures Heap(mem, free, live, pro, ext) && r < |free| && free[r] == freeptr
    {
      r :| r < |free| && free[r] == freeptr;
    }

    lemma LivePositive()
      requires Valid()
      ensures forall b :: b in live ==> b > 0
    {
      hide Circle, Tiles;
    }

    constructor ()
      ensures Valid() && freeptr == NULL && live == {} && mem == map[]
    {
      mem, freeptr, brk := map[], NULL, 1;
      free, live, pro, ext, sbrks, refusals, skipped := [], {}, {}, map[], 0, 0, false;
    }

    /** The system call: fails, or hands out n units above all earlier ones
        (others may have moved the break) with arbitrary contents. */
    method Sbrk(n: nat) returns (base: int)
      requires Packed() && n >= 1 && HEADER_BYTES * n < SBRK_LIMIT
      modifies this`mem, this`brk, this`sbrks, this`refusals, this`skipped
      ensures Packed() && skipped == (old(skipped) || (base != -1 && old(mem) != map[] && base != old(brk)))
      ensures sbrks == old(sbrks) + 1 && refusals == old(refusals) + (if base == -1 then 1 else 0)
      ensures base == -1 ==> mem == old(mem) && brk == old(brk)
      ensures base != -1 ==> base >= old(brk) && brk == base + n
      ensures base != -1 ==> mem.Keys == old(mem.Keys) + Interval(base, n)
      ensures base != -1 ==> forall u :: u in old(mem) && u !in Interval(base, n) ==> mem[u] == old(mem)[u]
    {
      hide Dense;
      sbrks := sbrks + 1;
      var ok: bool, at: int :| at >= brk && at != -1;
      if !ok {
        refusals := refusals + 1;
        return -1;
      }
      if !skipped && (mem == map[] || at == brk) { DenseGrow(mem.Keys, brk, at, n); }
      skipped := skipped || (mem != map[] && at != brk);
      var fill := Junk(at, n);
      assert (mem + fill).Keys == mem.Keys + fill.Keys;
      base := at;
      mem := mem + fill;
      brk := base + n;
    }

    /** While sbrk leaves no gap, the memory is contiguous. */
    lemma InOneRun()
      requires Valid() && !skipped
      ensures Contiguous(mem.Keys)
    {
    }

    /** The size in the header of a live block. */
    method SizeOf(b: int) returns (size: int)
      requires Valid() && b in live
      ensures b in ext && size == ext[b]
    {
      hide Circle, Tiles, Dense;
      size := mem[b].size;
    }

    /** A client stores into the payload of a live block, never into its header. */
    method Store(b: int, u: int, h: Header)
      requires Valid() && b in live && Within(ext, b, u) && u != b
      modifies this`mem
      ensures Valid()
      ensures mem == old(mem)[u := h]
    {
      hide Circle, Roles, Tiles;
      PayloadIsNoHeader(ext, mem.Keys, b, u);
      StoreHeap(mem, free, live, pro, ext, u, h);
      mem := mem[u := h];
    }

    /** mm_free's search, malloc/mm_alloc.c:149-156: from any rover position it
        stops at the one gap that holds bp. */
    method FindGap(bp: int) returns (p: int, ghost g: nat)
      requires Valid() && bp in live
      ensures Gap(free, bp, g) && p == free[g]
      ensures forall h :: Gap(free, bp, h) ==> p == free[h] && h == g
    {
      hide Chain, Roles, Tiles, ApartBut;
      g := LiveGap(mem, free, live, pro, ext, bp);
      p := freeptr;
      ghost var k: nat :| k < |free| && free[k] == p;
      GapTest(mem, free, bp, g, k);
      while !(bp > p && bp < mem[p].next)
        invariant k < |free| && free[k] == p && p in mem
        invariant k == g <==> (p < bp < mem[p].next || (p >= mem[p].next && (bp > p || bp < mem[p].next)))
        decreases if k <= g then g - k else |free| - k + g
      {
        if p >= mem[p].next && (bp > p || bp < mem[p].next) {
          break;
        }
        GapTest(mem, free, bp, g, k);
        p, k := mem[p].next, Succ(k, |free|);
        GapTest(mem, free, bp, g, k);
      }
      GapUnique(mem, free, bp, g);
    }

    /** mm_free's two joins, malloc/mm_alloc.c:158-177. */
    method Coalesce(p: int, bp: int)
      requires p in mem && bp in mem && mem[p].next in mem && p != bp
      modifies this`mem
      ensures mem == Released(old(mem), p, bp) && mem.Keys == old(mem.Keys)
      ensures forall u :: u in mem && u != p && u != bp ==> mem[u] == old(mem)[u]
    {
      if bp + mem[bp].size == mem[p].next {
        mem := mem[bp := Header(mem[mem[p].next].next, mem[bp].size + mem[mem[p].next].size)];
      } else {
        mem := mem[bp := mem[bp].(next := mem[p].next)];
      }
      if mem[p].size != 0 && p + mem[p].size == bp {
        mem := mem[p := Header(mem[bp].next, mem[p].size + mem[bp].size)];
      } else {
        mem := mem[p := mem[p].(next := bp)];
      }
    }

    lemma Nearest(bp: int, g: nat)
      requires Valid() && Gap(free, bp, g)
      ensures g < |free| && free[g] < bp && forall i :: 0 <= i < |free| && free[i] < bp ==> free[i] <= free[g]
    {
      hide Roles, Tiles, Dense, ApartBut;
      GapIsNearest(free, bp, g);
    }

    /** mm_free, malloc/mm_alloc.c:138-179.  Block home of the new circle holds
        the freed units. */
    method Free(ptr: int) returns (ghost home: nat)
      requires Valid() && (ptr == NULL || ptr - 1 in live)
      modifies this`mem, this`freeptr, this`free, this`live, this`ext
      ensures Valid() && mem.Keys == old(mem.Keys)
      ensures ptr == NULL ==> mem == old(mem) && freeptr == old(freeptr) && free == old(free) && live == old(live) && ext == old(ext)
      ensures ptr != NULL ==> live == old(live) - {ptr - 1} && free != []
      ensures Kept(live, old(mem), old(ext), mem, ext)
      ensures ptr != NULL ==> 1 <= home < |free| && free[home] in mem && free[home] <= ptr - 1
      ensures ptr != NULL ==> ptr - 1 + old(mem)[ptr - 1].size <= free[home] + mem[free[home]].size
      ensures ptr != NULL ==> freeptr in old(free) && freeptr < ptr - 1
      ensures ptr != NULL ==> forall i :: 0 <= i < |old(free)| && old(free)[i] < ptr - 1 ==> old(free)[i] <= freeptr
    {
      hide Chain, Roles, Tiles, ApartBut, Gap, Kept;
      home := 0;
      if ptr == NULL {
        KeptSelf();
        return;
      }
      var bp := ptr - 1;
      var p;
      ghost var g, freed, e;
      p, g := FindGap(bp);
      Nearest(bp, g);
      FreeFacts(mem, free, live, pro, ext, bp, g);
      freed, e, home := ReleaseHeap(mem, free, live, pro, ext, bp, g);
      Coalesce(p, bp);
      freeptr := p;
      free, live, ext := freed, live - {bp}, e;
      WritesKept(live, old(mem), old(ext), p, bp, mem, ext);
    }

    /** The segment of extend_heap, malloc/mm_alloc.c:211-216: for the moment one more
        live block. */
    method Segment(n: nat) returns (bp: int)
      requires Valid() && free != [] && n >= 1 && HEADER_BYTES * n < SBRK_LIMIT
      modifies this`mem, this`brk, this`sbrks, this`refusals, this`skipped, this`live, this`ext
      ensures Valid() && sbrks == old(sbrks) + 1 && refusals == old(refusals) + (if bp == -1 then 1 else 0)
      ensures bp == -1 ==> mem == old(mem) && live == old(live) && ext == old(ext)
      ensures bp != -1 ==> 0 < bp && bp !in old(live) && live == old(live) + {bp} && bp in mem && mem[bp].size == n
      ensures bp != -1 ==> mem.Keys == old(mem.Keys) + Interval(bp, n) && brk == bp + n
      ensures old(mem.Keys) <= mem.Keys && Kept(old(live), old(mem), old(ext), mem, ext)
    {
      hide Heap, Roles, Tiles, Kept, Dense;
      KeptSelf();
      bp := Sbrk(n);
      if bp == -1 {
        return;
      }
      assert bp in Interval(bp, n);
      ghost var keys := mem.Keys;
      mem := mem[bp := mem[bp].(size := n)];
      assert mem.Keys == keys;
      GrowHeap(old(mem), free, live, pro, ext, mem, bp, n);
      GrowKept(old(mem), free, live, pro, ext, mem, bp, n);
      live, ext := live + {bp}, ext[bp := n];
    }

    /** extend_heap, malloc/mm_alloc.c:202-219. */
    method ExtendHeap(units: nat) returns (ok: bool, ghost home: nat)
      requires Valid() && free != [] && units >= 1 && HEADER_BYTES * units < SBRK_LIMIT
      modifies this`mem, this`brk, this`sbrks, this`refusals, this`skipped, this`freeptr, this`free, this`live, this`ext
      ensures Valid() && free != [] && sbrks == old(sbrks) + 1 && live == old(live)
      ensures !ok ==> mem == old(mem) && freeptr == old(freeptr) && free == old(free) && ext == old(ext)
      ensures refusals == old(refusals) + (if ok then 0 else 1)
      ensures old(mem.Keys) <= mem.Keys
      ensures ok ==> var n := if units < NALLOC then NALLOC else units; mem.Keys == old(mem.Keys) + Interval(brk - n, n)
      ensures Kept(live, old(mem), old(ext), mem, ext)
      ensures ok ==> 1 <= home < |free| && free[home] in mem && mem[free[home]].size >= units
    {
      hide Valid, Kept;
      home := 0;
      var n := if units < NALLOC then NALLOC else units;
      var bp := Segment(n);
      if bp == -1 {
        return false, 0;
      }
      ghost var m, e := mem, ext;
      home := Free(bp + 1);
      KeptChain(live, old(mem), old(ext), m, e, mem, ext);
      ok := true;
    }

    /** The prologue of mm_init, malloc/mm_alloc.c:184-192: a circle of one. */
    method Prologue() returns (ok: bool)
      requires Valid() && freeptr == NULL
      modifies this
      ensures Valid() && live == old(live) && sbrks == old(sbrks) + 1 && old(mem.Keys) <= mem.Keys
      ensures if ok then |free| == 1 else freeptr == NULL
      ensures refusals == old(refusals) + (if ok then 0 else 1)
    {
      hide Heap, Roles, Tiles, Dense;
      var base := Sbrk(1);
      if base == -1 {
        return false;
      }
      assert base in Interval(base, 1);
      ghost var keys := mem.Keys;
      freeptr := base;
      mem := mem[freeptr := Header(freeptr, 0)];
      assert mem.Keys == keys;
      PrologueHeap(old(mem), pro, ext, mem, base);
      free, pro, ext := [base], pro + {base}, ext[base := 1];
      return true;
    }

    /** The circle of one is given up again, malloc/mm_alloc.c:194-198. */
    method GiveUp()
      requires Valid() && |free| == 1 && live == {}
      modifies this`freeptr, this`free
      ensures Valid() && freeptr == NULL
    {
      hide Roles, Tiles, Dense;
      ForgetCircle(mem, free, pro, ext);
      freeptr := NULL;
      free := [];
    }

    lemma NoneLive()
      requires Valid() && freeptr == NULL
      ensures live == {}
    {
    }

    /** mm_init, malloc/mm_alloc.c:182-200. */
    method Init() returns (ok: bool)
      requires Valid() && freeptr == NULL
      modifies this
      ensures Valid() && live == old(live) && sbrks <= old(sbrks) + 2 && old(mem.Keys) <= mem.Keys
      ensures ok <==> freeptr != NULL
      ensures refusals == old(refusals) + (if ok then 0 else 1)
    {
      hide Valid, Kept;
      NoneLive();
      ok := Prologue();
      if !ok {
        return;
      }
      var grown, _ := ExtendHeap(NALLOC);
      if !grown {
        GiveUp();
        return false;
      }
      HasRover();
    }

    lemma HasRover()
      requires Valid() && free != []
      ensures freeptr != NULL
    {
    }

    /** mm_malloc handing out units of the block at ptr, malloc/mm_alloc.c:67-79. */
    method HandOut(prev: int, ptr: int, units: int, ghost i: nat) returns (p: int)
      requires Valid() && 1 <= i < |free| && free[i] == ptr && free[i - 1] == prev
      requires ptr in mem && 1 <= units <= mem[ptr].size
      modifies this`mem, this`freeptr, this`free, this`live, this`ext
      ensures Valid() && free != [] && mem.Keys == old(mem.Keys)
      ensures p - 1 == ptr + old(mem)[ptr].size - units
      ensures p - 1 !in old(live) && live == old(live) + {p - 1} && p != NULL
      ensures p - 1 in mem && mem[p - 1].size == units
      ensures Kept(old(live), old(mem), old(ext), mem, ext)
      ensures freeptr == prev
    {
      hide Chain, Roles, Tiles, ApartBut, Kept;
      TakeFacts(mem, free, live, pro, ext, i);
      var q := ptr;
      if mem[q].size == units {
        mem := mem[prev := mem[prev].(next := mem[q].next)];
        TakeWhole(old(mem), free, live, pro, ext, i, mem);
        WritesKept(live, old(mem), ext, prev, prev, mem, ext);
        free := Without(free, i);
      } else {
        ghost var m, e := TakeTail(mem, free, live, pro, ext, i, units, ptr + mem[ptr].size - units);
        mem := mem[q := mem[q].(size := mem[q].size - units)];
        q := q + mem[q].size;
        mem := mem[q := mem[q].(size := units)];
        TakeTailKept(live, old(mem), ext, ptr, q, mem, e);
        ext := e;
      }
      live := live + {q};
      freeptr := prev;
      return q + 1;
    }

    /** The search loop of mm_malloc, malloc/mm_alloc.c:63-93.  at is the position
        the block was taken from when the heap did not have to grow. */
    method Search(units: nat) returns (p: int, ghost at: int)
      requires Valid() && free != [] && units >= 1 && HEADER_BYTES * units < SBRK_LIMIT
      modifies this`mem, this`brk, this`sbrks, this`refusals, this`skipped, this`freeptr, this`free, this`live, this`ext
      ensures Valid() && free != [] && old(mem.Keys) <= mem.Keys
      ensures p == NULL ==> live == old(live) && mem == old(mem) && free == old(free) && freeptr == old(freeptr)
      ensures p != NULL ==> p - 1 !in old(live) && live == old(live) + {p - 1} && p - 1 in mem && mem[p - 1].size == units
      ensures Kept(old(live), old(mem), old(ext), mem, ext)
      ensures sbrks <= old(sbrks) + 1 && refusals == old(refusals) + (if p == NULL then 1 else 0)
      ensures !NoneFits(old(mem), old(free), units) ==>
        && p != NULL && sbrks == old(sbrks) && mem.Keys == old(mem.Keys)
        && NextFit(old(mem), old(free), old(freeptr), units, at)
        && p - 1 == old(free)[at] + old(mem)[old(free)[at]].size - units
        && freeptr == old(free)[at - 1]
    {
      hide Valid, Heap, Roles, Tiles, Kept, NextFit, NoneFits, AllSmall;
      at := -1;
      KeptSelf();
      ghost var grown, home: nat := false, 0;
      var prev := freeptr;
      ghost var r: nat := Rover();
      ghost var j: nat := r;
      HeapStep(mem, free, live, pro, ext, j);
      StartSmall(mem, free, r, units);
      var ptr := mem[prev].next;
      while true
        invariant Valid() && free != [] && live == old(live) && old(mem.Keys) <= mem.Keys
        invariant r < |free| && free[r] == freeptr && j < |free| && free[j] == prev && free[Succ(j, |free|)] == ptr && ptr in mem
        invariant AllSmall(mem, free, r, j, units)
        invariant Kept(live, old(mem), old(ext), mem, ext)
        invariant sbrks == old(sbrks) + (if grown then 1 else 0) && refusals == old(refusals)
        invariant grown ==> home < |free| && free[home] in mem && mem[free[home]].size >= units
        invariant grown ==> NoneFits(old(mem), old(free), units)
        invariant !grown ==> mem == old(mem) && free == old(free) && freeptr == old(freeptr)
        decreases !grown, if j >= r then |free| - (j - r) else r - j
      {
        HeapOf();
        HeapStep(mem, free, live, pro, ext, Succ(j, |free|));
        ghost var m, e := mem, ext;
        if mem[ptr].size >= units {
          FoundFit(mem, free, live, pro, ext, r, j, units);
          at := j + 1;
          p := HandOut(prev, ptr, units, j + 1);
          KeptChain(old(live), old(mem), old(ext), m, e, mem, ext);
          return;
        }
        SearchStep(mem, free, live, pro, ext, r, j, units);
        if grown { SomeFits(mem, free, home, units); }
        if ptr == freeptr {
          var ok;
          ok, home := ExtendHeap(units);
          KeptChain(live, old(mem), old(ext), m, e, mem, ext);
          if !ok {
            return NULL, at;
          }
          ptr := freeptr;
          grown := true;
          r := Rover();
          j := r;
          HeapStep(mem, free, live, pro, ext, j);
          StartSmall(mem, free, r, units);
        } else {
          j := Succ(j, |free|);
        }
        prev, ptr := ptr, mem[ptr].next;
      }
    }

    /** mm_malloc, malloc/mm_alloc.c:41-94. */
    method Malloc(size: nat) returns (p: int, ghost at: int)
      requires Valid() && size <= LARGEST
      modifies this
      ensures Valid() && old(mem.Keys) <= mem.Keys
      ensures p == NULL ==> live == old(live)
      ensures p != NULL ==> p - 1 !in old(live) && live == old(live) + {p - 1}
      ensures p != NULL ==> p - 1 in mem && mem[p - 1].size == Units(size) && size <= HEADER_BYTES * (mem[p - 1].size - 1)
      ensures Kept(old(live), old(mem), old(ext), mem, ext)
      ensures old(freeptr) != NULL ==> pro == old(pro)
      ensures sbrks <= old(sbrks) + (if old(freeptr) == NULL then 3 else 1)
      ensures refusals == old(refusals) + (if p == NULL && size > 0 then 1 else 0)
      ensures size == 0 ==> p == NULL && sbrks == old(sbrks) && mem == old(mem) && free == old(free) && ext == old(ext)
      ensures size > 0 && old(freeptr) != NULL && !NoneFits(old(mem), old(free), Units(size)) ==>
        && p != NULL && sbrks == old(sbrks) && mem.Keys == old(mem.Keys)
        && NextFit(old(mem), old(free), old(freeptr), Units(size), at)
        && p - 1 == old(free)[at] + old(mem)[old(free)[at]].size - Units(size)
        && freeptr == old(free)[at - 1]
    {
      hide Heap, Roles, Tiles, Kept, NextFit, NoneFits;
      KeptSelf();
      if size == 0 {
        return NULL, -1;
      }
      UnitsExact(size);
      if freeptr == NULL {
        var ok := Init();
        KeptNone(old(mem), old(ext), mem, ext);
        if !ok {
          return NULL, -1;
        }
      }
      ghost var m, e := mem, ext;
      var units := (size + HEADER_BYTES - 1) % SIZE_LIMIT / HEADER_BYTES + 1;
      p, at := Search(units);
      KeptChain(old(live), old(mem), old(ext), m, e, mem, ext);
    }
  }
}
