/** The heap shape of malloc/mm_alloc.c: an address-ordered circular free list
    over memory that is tiled by free, live and prologue blocks.  Addresses count
    Header units; address 0 is NULL. */
module FreeList {
  import opened Basics
  import opened Tiling

  const NULL := 0
  const NALLOC := 1024
  const HEADER_BYTES := 16
  const SIZE_LIMIT := 0x1_0000_0000_0000_0000

  datatype Header = Header(next: int, size: int)

  type Memory = map<int, Header>

  /** Units of a block for size bytes, in 64-bit size_t arithmetic. */
  function Units(size: nat): int {
    (size + HEADER_BYTES - 1) % SIZE_LIMIT / HEADER_BYTES + 1
  }

  /** sbrk takes a signed number of bytes. */
  const SBRK_LIMIT := SIZE_LIMIT / 2

  /** The largest request for which the rounding does not wrap around and the byte
      count handed to sbrk is not taken for a negative one. */
  const LARGEST := SBRK_LIMIT - 2 * HEADER_BYTES

  lemma {:induction false} UnitsExact(size: nat)
    requires 0 < size < SIZE_LIMIT
    ensures size <= LARGEST ==> HEADER_BYTES * (Units(size) - 2) < size
    ensures size <= LARGEST <==> size <= HEADER_BYTES * (Units(size) - 1) && HEADER_BYTES * Units(size) < SBRK_LIMIT
  {
    if size + HEADER_BYTES - 1 < SIZE_LIMIT {
      assert (size + HEADER_BYTES - 1) % SIZE_LIMIT == size + HEADER_BYTES - 1;
    } else {
      assert (size + HEADER_BYTES - 1) % SIZE_LIMIT == size + HEADER_BYTES - 1 - SIZE_LIMIT;
    }
  }

  // ---------- the free list ----------

  /** free lists the circle from the prologue upward: ascending addresses and one
      wrap back to the zero-size prologue. */
  ghost predicate Chain(mem: Memory, free: seq<int>) {
    && |free| >= 1
    && (forall i :: 0 <= i < |free| ==> free[i] in mem)
    && Ascending(free)
    && (forall i, j :: 0 <= i < |free| && j == i + 1 < |free| ==> mem[free[i]].next == free[j])
    && mem[free[|free| - 1]].next == free[0]
    && mem[free[0]].size == 0
  }

  ghost predicate Ascending(free: seq<int>) {
    forall i, j :: 0 <= i < j < |free| ==> free[i] < free[j]
  }

  /** Free blocks are coalesced, except possibly those at positions a and b with
      their upper neighbours. */
  ghost predicate ApartBut(mem: Memory, free: seq<int>, a: int, b: int) {
    forall i, j :: 1 <= i < |free| && j == i + 1 < |free| && i != a && i != b && free[i] in mem ==> free[i] + mem[free[i]].size < free[j]
  }

  ghost predicate Circle(mem: Memory, free: seq<int>) {
    Chain(mem, free) && ApartBut(mem, free, -1, -1)
  }

  ghost function Elements(free: seq<int>): set<int> {
    set b | b in free
  }

  /** What each block is for: free (on the circle), live or a prologue. */
  ghost predicate Roles(mem: Memory, free: seq<int>, live: set<int>, pro: set<int>, ext: map<int, int>) {
    && ext.Keys == Elements(free) + live + pro
    && live !! pro
    && (forall b :: b in pro ==> ext[b] == 1)
    && (forall b :: b in live ==> b in mem && ext[b] == mem[b].size)
    && (forall i :: 0 <= i < |free| ==> free[i] !in live && (free[i] in pro <==> i == 0))
    && (forall i :: 1 <= i < |free| ==> free[i] in mem && ext[free[i]] == mem[free[i]].size)
    && (free != [] ==> forall b :: b in pro ==> b <= free[0])
    && (free != [] ==> forall b :: b in live ==> free[0] < b)
  }

  /** The circle is well formed and every unit obtained from sbrk is in exactly
      one block, which is free, live or a prologue. */
  ghost predicate Heap(mem: Memory, free: seq<int>, live: set<int>, pro: set<int>, ext: map<int, int>) {
    && Circle(mem, free)
    && Roles(mem, free, live, pro, ext)
    && Tiles(ext, mem.Keys)
  }

  lemma ElementsWithout(free: seq<int>, i: nat)
    requires i < |free|
    ensures Elements(free) == Elements(Without(free, i)) + {free[i]}
  {
    forall b | b in Elements(free) ensures b in Elements(Without(free, i)) + {free[i]} {
      var k :| 0 <= k < |free| && free[k] == b;
      if k < i { assert Without(free, i)[k] == b; } else if k > i { assert Without(free, i)[k - 1] == b; }
    }
  }

  /** Where an element of the shorter list was. */
  lemma WithoutAt(free: seq<int>, i: nat)
    requires i < |free|
    ensures |Without(free, i)| == |free| - 1
    ensures forall k :: 0 <= k < |free| - 1 ==> Without(free, i)[k] == free[if k < i then k else k + 1]
  {
  }

  lemma WithoutAscending(free: seq<int>, i: nat)
    requires Ascending(free) && i < |free|
    ensures Ascending(Without(free, i))
  {
    hide Without;
    WithoutAt(free, i);
  }

  /** Pointing the predecessor past block i takes it off the circle. */
  lemma UnlinkChain(mem: Memory, free: seq<int>, i: nat, m: Memory)
    requires Chain(mem, free) && 1 <= i < |free|
    requires forall k :: 0 <= k < |free| ==> free[k] in m
    requires m[free[i - 1]].next == mem[free[i]].next && m[free[0]].size == 0
    requires forall k :: 0 <= k < |free| && k != i - 1 ==> m[free[k]].next == mem[free[k]].next
    ensures Chain(m, Without(free, i))
  {
    hide Without, Ascending;
    WithoutAt(free, i);
    WithoutAscending(free, i);
    var freed := Without(free, i);
    forall k, l | 0 <= k < |freed| && l == k + 1 < |freed| ensures m[freed[k]].next == freed[l] {
      var h := if k < i then k else k + 1;
      assert freed[k] == free[h] && h < |free| - 1;
      assert mem[free[h]].next == free[h + 1];
    }
  }

  /** Unlinking a block that fits exactly, malloc/mm_alloc.c:68-71. */
  lemma TakeWholeCircle(mem: Memory, free: seq<int>, i: nat, m: Memory)
    requires Circle(mem, free) && 1 <= i < |free|
    requires m == mem[free[i - 1] := mem[free[i - 1]].(next := mem[free[i]].next)]
    ensures Circle(m, Without(free, i))
  {
    assert forall k :: 0 <= k < |free| && k != i - 1 ==> free[k] != free[i - 1];
    hide Without, ApartBut;
    UnlinkChain(mem, free, i, m);
    UnlinkApart(mem, free, i, m);
  }

  lemma UnlinkApart(mem: Memory, free: seq<int>, i: nat, m: Memory)
    requires Ascending(free) && ApartBut(mem, free, -1, -1) && 1 <= i < |free|
    requires m.Keys == mem.Keys && forall b :: b in m ==> m[b].size == mem[b].size
    ensures ApartBut(m, Without(free, i), -1, -1)
  {
    hide Without;
    WithoutAt(free, i);
    var freed := Without(free, i);
    forall k, l | 1 <= k < |freed| && l == k + 1 < |freed| && freed[k] in m ensures freed[k] + m[freed[k]].size < freed[l] {
      var h := if k < i then k else k + 1;
      assert freed[k] == free[h] && free[h] + mem[free[h]].size < free[h + 1] <= freed[l];
    }
  }

  lemma TakeWholeRoles(mem: Memory, free: seq<int>, live: set<int>, pro: set<int>, ext: map<int, int>, i: nat, m: Memory)
    requires Ascending(free) && Roles(mem, free, live, pro, ext) && 1 <= i < |free|
    requires m.Keys == mem.Keys && forall b :: b in m ==> m[b].size == mem[b].size
    ensures Roles(m, Without(free, i), live + {free[i]}, pro, ext)
  {
    var freed := Without(free, i);
    forall k | 0 <= k < |freed|
      ensures freed[k] !in live + {free[i]} && (freed[k] in pro <==> k == 0) && (k >= 1 ==> freed[k] in m && ext[freed[k]] == m[freed[k]].size)
    {
      assert freed[k] == free[if k < i then k else k + 1];
    }
    assert ext.Keys == Elements(freed) + (live + {free[i]}) + pro by { ElementsWithout(free, i); }
  }

  /** Splitting the tail off a larger block, malloc/mm_alloc.c:72-77. */
  lemma TakeTailRoles(mem: Memory, free: seq<int>, live: set<int>, pro: set<int>, ext: map<int, int>, i: nat, units: int, c: int, m: Memory)
    requires Circle(mem, free) && Roles(mem, free, live, pro, ext) && 1 <= i < |free|
    requires c in mem && c !in ext && free[i] < c
    requires m == mem[free[i] := mem[free[i]].(size := mem[free[i]].size - units)][c := mem[c].(size := units)]
    ensures Roles(m, free, live + {c}, pro, ext[free[i] := mem[free[i]].size - units][c := units])
  {
  }

  lemma TakeTailCircle(mem: Memory, free: seq<int>, i: nat, units: int, c: int, m: Memory)
    requires Circle(mem, free) && 1 <= i < |free| && 1 <= units < mem[free[i]].size
    requires c in mem && c !in free
    requires m == mem[free[i] := mem[free[i]].(size := mem[free[i]].size - units)][c := mem[c].(size := units)]
    ensures Circle(m, free)
  {
  }

  // ---------- giving a block back ----------

  /** Position g is where bp belongs on the circle. */
  ghost predicate Gap(free: seq<int>, bp: int, g: int) {
    0 <= g < |free| && free[g] < bp && (g + 1 < |free| ==> bp < free[g + 1])
  }

  lemma {:induction false} GapExists(free: seq<int>, bp: int) returns (g: nat)
    requires Ascending(free) && |free| >= 1 && free[0] < bp && bp !in free
    ensures Gap(free, bp, g)
  {
    g := 0;
    while g + 1 < |free| && free[g + 1] < bp
      invariant g < |free| && free[g] < bp
    {
      g := g + 1;
    }
  }

  /** There is only one such position. */
  lemma GapUnique(mem: Memory, free: seq<int>, bp: int, g: int)
    requires Chain(mem, free) && Gap(free, bp, g)
    ensures forall h :: Gap(free, bp, h) ==> h == g
  {
  }

  /** mm_free's loop condition and its wrap-around test, malloc/mm_alloc.c:150-155,
      together stop exactly at the gap. */
  lemma GapTest(mem: Memory, free: seq<int>, bp: int, g: int, k: nat)
    requires Chain(mem, free) && bp !in free && free[0] < bp && Gap(free, bp, g) && k < |free|
    ensures free[k] in mem && mem[free[k]].next == free[Succ(k, |free|)]
    ensures var p, q := free[k], mem[free[k]].next;
      k == g <==> (p < bp < q || (p >= q && (bp > p || bp < q)))
  {
    if k == |free| - 1 {
      assert Succ(k, |free|) == 0 && free[0] <= free[k];
      assert g < k ==> free[g + 1] <= free[k];
    } else {
      assert Succ(k, |free|) == k + 1;
      if k < g { assert free[k + 1] <= free[g]; }
      if g < k { assert free[g + 1] <= free[k]; }
    }
  }

  /** The gap begins at the nearest free block below bp. */
  lemma GapIsNearest(free: seq<int>, bp: int, g: nat)
    requires Ascending(free) && Gap(free, bp, g)
    ensures free[g] < bp && forall i :: 0 <= i < |free| && free[i] < bp ==> free[i] <= free[g]
  {
    assert forall i :: g + 1 < i < |free| ==> free[g + 1] < free[i];
  }

  lemma LiveGap(mem: Memory, free: seq<int>, live: set<int>, pro: set<int>, ext: map<int, int>, bp: int) returns (g: nat)
    requires Heap(mem, free, live, pro, ext) && bp in live
    ensures Gap(free, bp, g) && bp !in free && free[0] < bp
  {
    g := GapExists(free, bp);
  }

  function Insert(free: seq<int>, bp: int, g: nat): seq<int>
    requires g < |free|
  {
    free[..g + 1] + [bp] + free[g + 1..]
  }

  lemma InsertAscending(free: seq<int>, bp: int, g: nat)
    requires Ascending(free) && Gap(free, bp, g)
    ensures Ascending(Insert(free, bp, g))
  {
    var freed := Insert(free, bp, g);
    forall i, j | 0 <= i < j < |freed| ensures freed[i] < freed[j] {
      assert i <= g ==> free[i] <= free[g];
      assert j > g + 1 ==> free[g + 1] <= free[j - 1];
    }
  }

  lemma InsertChain(mem: Memory, free: seq<int>, bp: int, g: nat, m: Memory)
    requires Chain(mem, free) && bp in mem && bp !in free && Gap(free, bp, g)
    requires m == mem[bp := mem[bp].(next := mem[free[g]].next)][free[g] := mem[free[g]].(next := bp)]
    ensures Chain(m, Insert(free, bp, g))
  {
    var freed := Insert(free, bp, g);
    InsertAscending(free, bp, g);
    forall k | 0 <= k < |freed| ensures freed[k] in m {
      assert freed[k] == if k <= g then free[k] else if k == g + 1 then bp else free[k - 1];
    }
    forall k, l | 0 <= k < |freed| && l == k + 1 < |freed| ensures m[freed[k]].next == freed[l] {
      if k < g {
        assert freed[k] == free[k] < free[g] && freed[l] == free[k + 1];
      } else if k > g + 1 {
        assert freed[k] == free[k - 1] > free[g] && freed[l] == free[k];
      }
    }
    assert freed[0] == free[0];
    if g + 1 < |free| { assert freed[|freed| - 1] == free[|free| - 1] > free[g]; }
  }

  lemma InsertApart(mem: Memory, free: seq<int>, bp: int, g: nat, m: Memory)
    requires ApartBut(mem, free, -1, -1) && g < |free|
    requires m.Keys == mem.Keys && forall b :: b in m ==> m[b].size == mem[b].size
    ensures ApartBut(m, Insert(free, bp, g), g, g + 1)
  {
    var freed := Insert(free, bp, g);
    forall i, j | 1 <= i < |freed| && j == i + 1 < |freed| && i != g && i != g + 1 && freed[i] in m
      ensures freed[i] + m[freed[i]].size < freed[j]
    {
      var k := if i < g then i else i - 1;
      assert freed[i] == free[k] && freed[j] == free[k + 1];
    }
  }

  lemma InsertRoles(mem: Memory, free: seq<int>, live: set<int>, pro: set<int>, ext: map<int, int>, bp: int, g: nat, m: Memory)
    requires Roles(mem, free, live, pro, ext) && g < |free| && bp in live
    requires m.Keys == mem.Keys && forall b :: b in m ==> m[b].size == mem[b].size
    ensures Roles(m, Insert(free, bp, g), live - {bp}, pro, ext)
  {
    var freed := Insert(free, bp, g);
    forall k | 0 <= k < |freed|
      ensures freed[k] !in live - {bp} && (freed[k] in pro <==> k == 0) && (k >= 1 ==> freed[k] in m && ext[freed[k]] == m[freed[k]].size)
    {
      assert freed[k] == if k <= g then free[k] else if k == g + 1 then bp else free[k - 1];
    }
    assert Elements(freed) == Elements(free) + {bp} by {
      ElementsWithout(freed, g + 1);
      assert Without(freed, g + 1) == free;
    }
  }

  /** Joining the free block at position i with its upper neighbour. */
  lemma JoinChain(mem: Memory, free: seq<int>, i: nat, m: Memory)
    requires Chain(mem, free) && 1 <= i < |free| - 1
    requires m == mem[free[i] := Header(mem[free[i + 1]].next, mem[free[i]].size + mem[free[i + 1]].size)]
    ensures Chain(m, Without(free, i + 1))
  {
    assert forall k :: 0 <= k < |free| && k != i ==> free[k] != free[i];
    hide Without;
    UnlinkChain(mem, free, i + 1, m);
  }

  lemma JoinApart(mem: Memory, free: seq<int>, i: nat, a: int, m: Memory)
    requires Ascending(free) && 1 <= i < |free| - 1 && a < i && ApartBut(mem, free, a, i)
    requires free[i] in mem && free[i + 1] in mem && free[i] + mem[free[i]].size == free[i + 1]
    requires m == mem[free[i] := Header(mem[free[i + 1]].next, mem[free[i]].size + mem[free[i + 1]].size)]
    ensures ApartBut(m, Without(free, i + 1), a, a)
  {
    var freed := Without(free, i + 1);
    forall k, l | 1 <= k < |freed| && l == k + 1 < |freed| && k != a && freed[k] in m
      ensures freed[k] + m[freed[k]].size < freed[l]
    {
      if k < i { assert freed[k] == free[k] && freed[l] == free[k + 1] && free[k] != free[i]; }
      if k >= i { assert freed[k] == free[if k == i then i else k + 1] && freed[l] == free[k + 2]; assert free[k + 1] in mem; }
    }
  }

  lemma JoinKeys(free: seq<int>, others: set<int>, i: nat)
    requires Ascending(free) && i < |free| && free[i] !in others
    ensures Elements(free) + others - {free[i]} == Elements(Without(free, i)) + others
  {
    ElementsWithout(free, i);
    var freed := Without(free, i);
    forall k | 0 <= k < |freed| ensures freed[k] != free[i] {
      assert freed[k] == free[if k < i then k else k + 1];
    }
  }

  lemma JoinExtKeys(free: seq<int>, live: set<int>, pro: set<int>, ext: map<int, int>, i: nat, e: map<int, int>)
    requires Ascending(free) && 1 <= i < |free| - 1 && free[i] in ext && free[i + 1] in ext
    requires ext.Keys == Elements(free) + live + pro && free[i + 1] !in live && free[i + 1] !in pro
    requires e == (ext - {free[i + 1]})[free[i] := ext[free[i]] + ext[free[i + 1]]]
    ensures e.Keys == Elements(Without(free, i + 1)) + live + pro
  {
    JoinKeys(free, live + pro, i + 1);
    assert free[i] < free[i + 1];
    assert e.Keys == ext.Keys - {free[i + 1]};
    assert Elements(free) + live + pro == Elements(free) + (live + pro);
  }

  lemma JoinRoles(mem: Memory, free: seq<int>, live: set<int>, pro: set<int>, ext: map<int, int>, i: nat, m: Memory, e: map<int, int>)
    requires Ascending(free) && Roles(mem, free, live, pro, ext) && 1 <= i < |free| - 1 && free[i] in ext && free[i + 1] in ext
    requires m == mem[free[i] := Header(mem[free[i + 1]].next, mem[free[i]].size + mem[free[i + 1]].size)]
    requires e == (ext - {free[i + 1]})[free[i] := ext[free[i]] + ext[free[i + 1]]]
    ensures Roles(m, Without(free, i + 1), live, pro, e)
  {
    hide Without;
    WithoutAt(free, i + 1);
    var freed := Without(free, i + 1);
    forall k | 0 <= k < |freed|
      ensures freed[k] !in live && (freed[k] in pro <==> k == 0) && (k >= 1 ==> freed[k] in m && freed[k] in e && e[freed[k]] == m[freed[k]].size)
    {
      var h := if k <= i then k else k + 1;
      assert freed[k] == free[h] && free[h] != free[i + 1] && (h != i ==> free[h] != free[i]);
      assert h >= 1 ==> free[h] in ext;
    }
    assert (forall b :: b in pro ==> b in e && e[b] == 1) && (forall b :: b in live ==> b in m && b in e && e[b] == m[b].size);
    assert e.Keys == Elements(freed) + live + pro by { JoinExtKeys(free, live, pro, ext, i, e); }
  }

  /** A well-formed heap whose free blocks at positions a and b may touch their
      upper neighbours. */
  ghost predicate Loose(mem: Memory, free: seq<int>, live: set<int>, pro: set<int>, ext: map<int, int>, a: int, b: int) {
    && Chain(mem, free)
    && ApartBut(mem, free, a, b)
    && Roles(mem, free, live, pro, ext)
    && Tiles(ext, mem.Keys)
  }

  lemma LiveNotFree(mem: Memory, free: seq<int>, live: set<int>, pro: set<int>, ext: map<int, int>, bp: int, g: nat)
    requires Chain(mem, free) && Roles(mem, free, live, pro, ext) && bp in live && Gap(free, bp, g)
    ensures bp !in free && g < |free| && free[g] in mem
  {
  }

  lemma InsertLoose(mem: Memory, free: seq<int>, live: set<int>, pro: set<int>, ext: map<int, int>, bp: int, g: nat, m: Memory)
    requires Loose(mem, free, live, pro, ext, -1, -1) && bp in live && Gap(free, bp, g)
    requires bp in mem
    requires m == mem[bp := mem[bp].(next := mem[free[g]].next)][free[g] := mem[free[g]].(next := bp)]
    ensures Loose(m, Insert(free, bp, g), live - {bp}, pro, ext, g, g + 1)
  {
    hide Chain, ApartBut, Roles, Tiles;
    LiveNotFree(mem, free, live, pro, ext, bp, g);
    assert m.Keys == mem.Keys;
    InsertChain(mem, free, bp, g, m);
    InsertApart(mem, free, bp, g, m);
    InsertRoles(mem, free, live, pro, ext, bp, g, m);
  }

  /** Block i touches its upper neighbour on the circle. */
  ghost predicate Touches(mem: Memory, free: seq<int>, i: nat)
    requires Chain(mem, free)
  {
    1 <= i < |free| - 1 && free[i] + mem[free[i]].size == free[i + 1]
  }

  lemma NeighbourFacts(mem: Memory, free: seq<int>, live: set<int>, pro: set<int>, ext: map<int, int>, i: nat)
    requires Chain(mem, free) && Roles(mem, free, live, pro, ext) && 1 <= i < |free| - 1
    ensures Ascending(free) && free[i] < free[i + 1]
    ensures free[i] in ext && free[i + 1] in ext && ext[free[i]] == mem[free[i]].size
    ensures free[i] in mem && free[i + 1] in mem && free[i] !in live && free[i + 1] !in live && live <= ext.Keys
  {
    assert free[i] in Elements(free) && free[i + 1] in Elements(free);
  }

  lemma JoinLoose(mem: Memory, free: seq<int>, live: set<int>, pro: set<int>, ext: map<int, int>, i: nat, a: int, m: Memory)
    returns (e: map<int, int>)
    requires Loose(mem, free, live, pro, ext, a, i) && a < i && Touches(mem, free, i)
    requires m == mem[free[i] := Header(mem[free[i + 1]].next, mem[free[i]].size + mem[free[i + 1]].size)]
    ensures Loose(m, Without(free, i + 1), live, pro, e, a, a)
    ensures forall b :: b in live ==> b in ext && b in e && e[b] == ext[b]
  {
    hide Chain, ApartBut, Roles, Tiles, Ascending;
    NeighbourFacts(mem, free, live, pro, ext, i);
    e := (ext - {free[i + 1]})[free[i] := ext[free[i]] + ext[free[i + 1]]];
    assert m.Keys == mem.Keys;
    JoinChain(mem, free, i, m);
    JoinApart(mem, free, i, a, m);
    JoinRoles(mem, free, live, pro, ext, i, m, e);
    JoinTiles(ext, mem.Keys, free[i], free[i + 1]);
  }

  lemma NoJoinLoose(mem: Memory, free: seq<int>, live: set<int>, pro: set<int>, ext: map<int, int>, i: nat, a: int)
    requires Loose(mem, free, live, pro, ext, a, i) && !Touches(mem, free, i)
    ensures Loose(mem, free, live, pro, ext, a, a)
  {
    if 1 <= i < |free| - 1 {
      assert free[i] in ext && free[i + 1] in ext && free[i] < free[i + 1];
    }
  }

  /** mm_free joining bp to the upper block or linking it, malloc/mm_alloc.c:159-167. */
  function JoinedUpper(mem: Memory, p: int, bp: int): Memory
    requires p in mem && bp in mem && mem[p].next in mem
  {
    if bp + mem[bp].size == mem[p].next
    then mem[bp := Header(mem[mem[p].next].next, mem[bp].size + mem[mem[p].next].size)]
    else mem[bp := mem[bp].(next := mem[p].next)]
  }

  /** mm_free joining bp to the lower block p or linking it, malloc/mm_alloc.c:169-177. */
  function JoinedLower(mem: Memory, p: int, bp: int): Memory
    requires p in mem && bp in mem
  {
    if mem[p].size != 0 && p + mem[p].size == bp
    then mem[p := Header(mem[bp].next, mem[p].size + mem[bp].size)]
    else mem[p := mem[p].(next := bp)]
  }

  /** Memory after mm_free has found p. */
  function Released(mem: Memory, p: int, bp: int): Memory
    requires p in mem && bp in mem && mem[p].next in mem
  {
    JoinedLower(JoinedUpper(mem, p, bp), p, bp)
  }

  lemma FreeFacts(mem: Memory, free: seq<int>, live: set<int>, pro: set<int>, ext: map<int, int>, bp: int, g: nat)
    requires Heap(mem, free, live, pro, ext) && bp in live && Gap(free, bp, g)
    ensures bp in mem && free[g] in mem && mem[free[g]].next in mem && bp in ext && free[g] in ext && free[g] !in live
    ensures mem[free[g]].next == free[Succ(g, |free|)] && free[Succ(g, |free|)] in mem
    ensures g == 0 <==> mem[free[g]].size == 0
    ensures live <= ext.Keys
    ensures free[0] < bp && mem[bp].size >= 1 && mem[free[Succ(g, |free|)]].size >= 0
  {
    assert free[g] in Elements(free);
  }

  lemma ReleaseUpper(mem: Memory, free: seq<int>, live: set<int>, pro: set<int>, ext: map<int, int>, bp: int, g: nat)
    returns (m: Memory, freed: seq<int>, e: map<int, int>)
    requires Heap(mem, free, live, pro, ext) && bp in live && Gap(free, bp, g)
    ensures bp in mem && free[g] in mem && mem[free[g]].next in mem && free[g] != bp
    ensures m == JoinedUpper(mem, free[g], bp)[free[g] := mem[free[g]].(next := bp)]
    ensures Loose(m, freed, live - {bp}, pro, e, g, g)
    ensures forall b :: b in live - {bp} ==> b in e && b in ext && e[b] == ext[b]
    ensures |freed| > g + 1 && freed[g] == free[g] && freed[g + 1] == bp
    ensures g == 0 <==> mem[free[g]].size == 0
    ensures m[bp].size >= mem[bp].size
  {
    hide Chain, ApartBut, Roles, Tiles, Ascending;
    var p := free[g];
    FreeFacts(mem, free, live, pro, ext, bp, g);
    m := mem[bp := mem[bp].(next := mem[p].next)][p := mem[p].(next := bp)];
    InsertLoose(mem, free, live, pro, ext, bp, g, m);
    freed, e := Insert(free, bp, g), ext;
    assert freed[g] == p && freed[g + 1] == bp && (g + 1 < |free| ==> freed[g + 2] == free[g + 1]);
    if Touches(m, freed, g + 1) {
      var m' := m[bp := Header(m[freed[g + 2]].next, m[bp].size + m[freed[g + 2]].size)];
      e := JoinLoose(m, freed, live - {bp}, pro, e, g + 1, g, m');
      m, freed := m', Without(freed, g + 2);
    } else {
      NoJoinLoose(m, freed, live - {bp}, pro, e, g + 1, g);
    }
  }

  lemma LooseWeaken(m: Memory, freed: seq<int>, live: set<int>, pro: set<int>, ext: map<int, int>, g: nat)
    requires Loose(m, freed, live, pro, ext, g, g)
    ensures Loose(m, freed, live, pro, ext, -1, g)
    ensures g == 0 ==> Loose(m, freed, live, pro, ext, -1, -1)
    ensures forall i :: 0 <= i < |freed| ==> freed[i] in m
    ensures live <= ext.Keys
    ensures g + 1 < |freed| ==> freed[g] < freed[g + 1]
  {
  }

  lemma ReleaseLower(m: Memory, freed: seq<int>, live: set<int>, pro: set<int>, ext: map<int, int>, g: nat)
    returns (joined: seq<int>, e: map<int, int>, w: nat)
    requires Loose(m, freed, live, pro, ext, g, g) && g + 1 < |freed|
    requires m[freed[g]].next == freed[g + 1] && (g == 0 <==> m[freed[g]].size == 0)
    ensures Heap(JoinedLower(m, freed[g], freed[g + 1]), joined, live, pro, e)
    ensures forall b :: b in live ==> b in e && b in ext && e[b] == ext[b]
    ensures g < |joined| && joined[g] == freed[g]
    ensures 1 <= w < |joined| && joined[w] <= freed[g + 1] && joined[w] in JoinedLower(m, freed[g], freed[g + 1])
    ensures freed[g + 1] + m[freed[g + 1]].size <= joined[w] + JoinedLower(m, freed[g], freed[g + 1])[joined[w]].size
  {
    hide Chain, ApartBut, Roles, Tiles, Ascending;
    var p, bp := freed[g], freed[g + 1];
    joined, e, w := freed, ext, g + 1;
    LooseWeaken(m, freed, live, pro, ext, g);
    if Touches(m, freed, g) {
      e := JoinLoose(m, freed, live, pro, ext, g, -1, JoinedLower(m, p, bp));
      joined, w := Without(freed, g + 1), g;
    } else {
      NoJoinLoose(m, freed, live, pro, ext, g, -1);
      assert JoinedLower(m, p, bp) == m;
    }
  }

  /** Releasing a live block into its gap, with coalescing on both sides, keeps
      the heap well formed; block w of the new circle contains it. */
  lemma ReleaseHeap(mem: Memory, free: seq<int>, live: set<int>, pro: set<int>, ext: map<int, int>, bp: int, g: nat)
    returns (freed: seq<int>, e: map<int, int>, w: nat)
    requires Heap(mem, free, live, pro, ext) && bp in live && Gap(free, bp, g)
    ensures bp in mem && mem[free[g]].next in mem
    ensures Heap(Released(mem, free[g], bp), freed, live - {bp}, pro, e)
    ensures forall b :: b in live - {bp} ==> b in e && b in ext && e[b] == ext[b]
    ensures free[g] in freed
    ensures 1 <= w < |freed| && freed[w] <= bp && freed[w] in Released(mem, free[g], bp)
    ensures bp + mem[bp].size <= freed[w] + Released(mem, free[g], bp)[freed[w]].size
  {
    hide Chain, ApartBut, Roles, Tiles, Ascending, Loose;
    var m, joined, e' := ReleaseUpper(mem, free, live, pro, ext, bp, g);
    assert JoinedLower(m, free[g], bp) == Released(mem, free[g], bp);
    freed, e, w := ReleaseLower(m, joined, live - {bp}, pro, e', g);
  }

  // ---------- taking a block ----------

  /** An exact fit is unlinked, malloc/mm_alloc.c:68-71. */
  lemma TakeWhole(mem: Memory, free: seq<int>, live: set<int>, pro: set<int>, ext: map<int, int>, i: nat, m: Memory)
    requires Circle(mem, free) && 1 <= i < |free|
    requires m == mem[free[i - 1] := mem[free[i - 1]].(next := mem[free[i]].next)]
    requires Roles(mem, free, live, pro, ext) && Tiles(ext, mem.Keys)
    ensures Heap(m, Without(free, i), live + {free[i]}, pro, ext)
    ensures free[i - 1] in Without(free, i)
    ensures free[i] !in live && free[i] in mem && m[free[i]].size == mem[free[i]].size && live <= ext.Keys
  {
    hide Roles, Tiles, ApartBut;
    TakeFacts(mem, free, live, pro, ext, i);
    TakeWholeCircle(mem, free, i, m);
    TakeWholeRoles(mem, free, live, pro, ext, i, m);
    assert Without(free, i)[i - 1] == free[i - 1];
  }

  /** A larger block is split and its upper part handed out, malloc/mm_alloc.c:72-77. */
  lemma TakeTail(mem: Memory, free: seq<int>, live: set<int>, pro: set<int>, ext: map<int, int>, i: nat, units: int, c: int)
    returns (m: Memory, e: map<int, int>)
    requires Heap(mem, free, live, pro, ext) && 1 <= i < |free|
    requires 1 <= units < mem[free[i]].size && c == free[i] + mem[free[i]].size - units
    ensures c in mem && c !in live && c !in free
    ensures m == mem[free[i] := mem[free[i]].(size := mem[free[i]].size - units)][c := mem[c].(size := units)]
    ensures Heap(m, free, live + {c}, pro, e)
    ensures forall b :: b in live ==> b in e && b in ext && e[b] == ext[b]
  {
    hide Roles, Tiles, ApartBut, Chain, Ascending;
    TakeFacts(mem, free, live, pro, ext, i);
    m := mem[free[i] := mem[free[i]].(size := mem[free[i]].size - units)][c := mem[c].(size := units)];
    e := ext[free[i] := mem[free[i]].size - units][c := units];
    assert m.Keys == mem.Keys;
    SplitTiles(ext, mem.Keys, free[i], units);
    TakeTailCircle(mem, free, i, units, c, m);
    TakeTailRoles(mem, free, live, pro, ext, i, units, c, m);
  }

  lemma TakeFacts(mem: Memory, free: seq<int>, live: set<int>, pro: set<int>, ext: map<int, int>, i: nat)
    requires Heap(mem, free, live, pro, ext) && 1 <= i < |free|
    ensures free[i] in ext && free[i] in mem && ext[free[i]] == mem[free[i]].size && free[i - 1] in mem
    ensures free[i - 1] != free[i] && Ascending(free) && free[i] !in live && free[i - 1] !in live && free[i - 1] in ext
    ensures live <= ext.Keys && forall b :: b in free ==> b in ext
    ensures forall u :: free[i] <= u < free[i] + mem[free[i]].size ==> u in mem
  {
    assert free[i] in Elements(free);
    forall u | free[i] <= u < free[i] + mem[free[i]].size ensures u in mem {
      assert Within(ext, free[i], u);
    }
  }

  // ---------- growing the heap ----------

  /** A fresh segment above all earlier units, taken as one live block. */
  lemma GrowHeap(mem: Memory, free: seq<int>, live: set<int>, pro: set<int>, ext: map<int, int>, m: Memory, bp: int, n: nat)
    requires Heap(mem, free, live, pro, ext) && n >= 1 && forall u :: u in mem ==> u < bp
    requires m.Keys == mem.Keys + Interval(bp, n) && m[bp].size == n
    requires forall u :: u in mem ==> m[u] == mem[u]
    ensures Heap(m, free, live + {bp}, pro, ext[bp := n])
    ensures bp !in ext && live <= ext.Keys
  {
    hide Chain, ApartBut, Roles, Tiles;
    GrowFacts(mem, free, live, pro, ext, bp);
    AddTiles(ext, mem.Keys, bp, n);
    GrowCircle(mem, free, m);
    GrowRoles(mem, free, live, pro, ext, m, bp, n);
  }

  lemma GrowCircle(mem: Memory, free: seq<int>, m: Memory)
    requires Circle(mem, free) && forall u :: u in mem ==> u in m && m[u] == mem[u]
    ensures Circle(m, free)
  {
  }

  lemma GrowRoles(mem: Memory, free: seq<int>, live: set<int>, pro: set<int>, ext: map<int, int>, m: Memory, bp: int, n: nat)
    requires Roles(mem, free, live, pro, ext) && |free| >= 1 && free[0] < bp && bp !in ext
    requires (forall u :: u in mem ==> u in m && m[u] == mem[u]) && bp in m && m[bp].size == n
    ensures Roles(m, free, live + {bp}, pro, ext[bp := n])
  {
    assert ext[bp := n].Keys == ext.Keys + {bp} == Elements(free) + (live + {bp}) + pro;
    assert forall i :: 0 <= i < |free| ==> free[i] in Elements(free) && free[i] in ext;
    assert bp !in pro && (forall b :: b in pro || b in live ==> b in ext);
    forall i | 1 <= i < |free| ensures free[i] in m && ext[bp := n][free[i]] == m[free[i]].size {
      assert free[i] in mem && free[i] != bp;
    }
  }

  lemma GrowFacts(mem: Memory, free: seq<int>, live: set<int>, pro: set<int>, ext: map<int, int>, bp: int)
    requires Heap(mem, free, live, pro, ext) && forall u :: u in mem ==> u < bp
    ensures |free| >= 1 && free[0] < bp && bp !in ext && bp !in free && bp !in live && bp !in pro
    ensures live <= ext.Keys
  {
    assert bp in ext ==> Within(ext, bp, bp);
  }

  /** The first header becomes a circle of one, malloc/mm_alloc.c:185-192. */
  lemma PrologueHeap(mem: Memory, pro: set<int>, ext: map<int, int>, m: Memory, base: int)
    requires Roles(mem, [], {}, pro, ext) && Tiles(ext, mem.Keys) && forall u :: u in mem ==> u < base
    requires m.Keys == mem.Keys + Interval(base, 1) && m[base] == Header(base, 0)
    ensures Heap(m, [base], {}, pro + {base}, ext[base := 1])
  {
    hide Tiles, Roles;
    AddTiles(ext, mem.Keys, base, 1);
    PrologueRoles(mem, pro, ext, m, base);
  }

  lemma PrologueRoles(mem: Memory, pro: set<int>, ext: map<int, int>, m: Memory, base: int)
    requires Roles(mem, [], {}, pro, ext) && Tiles(ext, mem.Keys) && forall u :: u in mem ==> u < base
    ensures Roles(m, [base], {}, pro + {base}, ext[base := 1])
  {
    forall b | b in pro ensures b < base {
      assert b in ext && Within(ext, b, b);
    }
    hide Tiles;
    assert Elements([base]) == {base} && Elements([]) == {};
  }

  // ---------- the search of mm_malloc ----------

  /** Position i is met on the way round from just after r up to and including j. */
  predicate Passed(r: int, j: int, i: int) {
    if r <= j then r < i <= j else i > r || i <= j
  }

  /** None of the blocks passed from r to j is large enough. */
  ghost predicate AllSmall(mem: Memory, free: seq<int>, r: int, j: int, units: int) {
    forall i :: 0 <= i < |free| && Passed(r, j, i) ==> free[i] in mem && mem[free[i]].size < units
  }

  /** Block i is the first large enough one met from just after the rover. */
  ghost predicate NextFit(mem: Memory, free: seq<int>, rover: int, units: int, i: int) {
    && 1 <= i < |free| && free[i] in mem && mem[free[i]].size >= units
    && exists r :: 0 <= r < |free| && free[r] == rover && AllSmall(mem, free, r, i - 1, units)
  }

  ghost predicate NoneFits(mem: Memory, free: seq<int>, units: int) {
    forall i :: 0 <= i < |free| ==> free[i] in mem && mem[free[i]].size < units
  }

  /** One unsuccessful step of the search. */
  lemma SearchStep(mem: Memory, free: seq<int>, live: set<int>, pro: set<int>, ext: map<int, int>, r: nat, j: nat, units: int)
    requires Heap(mem, free, live, pro, ext) && r < |free| && j < |free| && AllSmall(mem, free, r, j, units)
    requires mem[free[Succ(j, |free|)]].size < units
    ensures Succ(j, |free|) != r ==> AllSmall(mem, free, r, Succ(j, |free|), units)
    ensures Succ(j, |free|) == r ==> NoneFits(mem, free, units)
  {
    hide Roles, Tiles, ApartBut;
  }

  lemma StartSmall(mem: Memory, free: seq<int>, r: nat, units: int)
    ensures AllSmall(mem, free, r, r, units)
  {
  }

  lemma SomeFits(mem: Memory, free: seq<int>, home: nat, units: int)
    requires home < |free| && free[home] in mem && mem[free[home]].size >= units
    ensures !NoneFits(mem, free, units)
  {
  }

  /** The step that ends the search. */
  lemma FoundFit(mem: Memory, free: seq<int>, live: set<int>, pro: set<int>, ext: map<int, int>, r: nat, j: nat, units: int)
    requires Heap(mem, free, live, pro, ext) && r < |free| && j < |free| && AllSmall(mem, free, r, j, units)
    requires units >= 1 && mem[free[Succ(j, |free|)]].size >= units
    ensures j + 1 < |free| && NextFit(mem, free, free[r], units, j + 1)
  {
    hide Roles, Tiles, ApartBut, AllSmall;
  }

  lemma HeapStep(mem: Memory, free: seq<int>, live: set<int>, pro: set<int>, ext: map<int, int>, j: nat)
    requires Heap(mem, free, live, pro, ext) && j < |free|
    ensures free[j] in mem && mem[free[j]].next == free[Succ(j, |free|)] && free[Succ(j, |free|)] in mem
    ensures mem[free[0]].size == 0
    ensures forall i :: 0 <= i < |free| && free[i] == free[j] ==> i == j
  {
    hide Roles, Tiles, ApartBut;
  }
}
