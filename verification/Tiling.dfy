/** Sets of memory units cut into blocks: a block map sends each block's base
    address to its extent in units. */
module Tiling {

  /** Unit u lies in the block based at b. */
  ghost predicate Within(ext: map<int, int>, b: int, u: int) {
    b in ext && b <= u < b + ext[b]
  }

  ghost predicate Covered(ext: map<int, int>, u: int) {
    exists b :: Within(ext, b, u)
  }

  ghost predicate Disjoint(ext: map<int, int>) {
    forall b, c :: b in ext && c in ext && b < c ==> b + ext[b] <= c
  }

  /** The blocks are nonempty, pairwise disjoint, and together exactly the units. */
  ghost predicate Tiles(ext: map<int, int>, units: set<int>) {
    && (forall b :: b in ext ==> ext[b] >= 1)
    && Disjoint(ext)
    && (forall b, u :: Within(ext, b, u) ==> u in units)
    && (forall u :: u in units ==> Covered(ext, u))
  }

  /** Some element of a nonempty set. */
  ghost function Pick<T>(s: set<T>): (x: T)
    requires s != {}
    ensures x in s
  {
    var x :| x in s;
    x
  }

  /** The n units from base upward. */
  function Interval(base: int, n: nat): (r: set<int>)
    ensures forall u :: u in r <==> base <= u < base + n
  {
    if n == 0 then {} else Interval(base, n - 1) + {base + n - 1}
  }

  lemma {:induction false} IntervalSize(base: int, n: nat)
    ensures |Interval(base, n)| == n
  {
    if n == 0 {
      assert Interval(base, 0) == {};
    } else {
      IntervalSize(base, n - 1);
      assert Interval(base, n) == Interval(base, n - 1) + {base + n - 1};
    }
  }

  /** Cutting the top k units off block b keeps the tiling. */
  lemma SplitTiles(ext: map<int, int>, units: set<int>, b: int, k: int)
    requires Tiles(ext, units) && b in ext && 1 <= k < ext[b]
    ensures b + ext[b] - k !in ext
    ensures Tiles(ext[b := ext[b] - k][b + ext[b] - k := k], units)
  {
    var c := b + ext[b] - k;
    var e := ext[b := ext[b] - k][c := k];
    forall u | u in units ensures Covered(e, u) {
      var d :| Within(ext, d, u);
      assert Within(e, if d == b && u >= c then c else d, u);
    }
    forall d, u | Within(e, d, u) ensures u in units {
      assert Within(ext, if d == c then b else d, u);
    }
    forall d, f | d in e && f in e && d < f ensures d + e[d] <= f {
      assert (if d == c then b else d) in ext && (if f == c then b else f) in ext;
    }
  }

  /** Joining two touching blocks keeps the tiling. */
  lemma JoinTiles(ext: map<int, int>, units: set<int>, b: int, c: int)
    requires Tiles(ext, units) && b in ext && c in ext && b + ext[b] == c
    ensures Tiles((ext - {c})[b := ext[b] + ext[c]], units)
  {
    var e := (ext - {c})[b := ext[b] + ext[c]];
    forall u | u in units ensures Covered(e, u) {
      var d :| Within(ext, d, u);
      assert Within(e, if d == c then b else d, u);
    }
    forall d, u | Within(e, d, u) ensures u in units {
      assert Within(ext, if d == b && u >= c then c else d, u);
    }
    forall d, f | d in e && f in e && d < f ensures d + e[d] <= f {
      assert d in ext && f in ext;
      if d == b { assert c + ext[c] <= f; }
    }
  }

  /** A fresh block above every unit extends the tiling. */
  lemma AddTiles(ext: map<int, int>, units: set<int>, b: int, n: int)
    requires Tiles(ext, units) && n >= 1
    requires forall u :: u in units ==> u < b
    ensures b !in ext
    ensures Tiles(ext[b := n], units + Interval(b, n))
  {
    var e := ext[b := n];
    forall d | d in ext ensures d + ext[d] <= b {
      assert Within(ext, d, d + ext[d] - 1);
    }
    forall u | u in units + Interval(b, n) ensures Covered(e, u) {
      if u in units {
        var d :| Within(ext, d, u);
        assert Within(e, d, u);
      } else {
        assert Within(e, b, u);
      }
    }
    forall d, u | Within(e, d, u) ensures u in units + Interval(b, n) {
      if d != b { assert Within(ext, d, u); }
    }
  }

  ghost predicate Contiguous(units: set<int>) {
    forall u, v, w :: u in units && w in units && u < v < w ==> v in units
  }

  /** One run of units that ends just below brk. */
  ghost predicate Dense(units: set<int>, brk: int) {
    Contiguous(units) && (units != {} ==> brk - 1 in units)
  }

  /** Growing at the end keeps one run. */
  lemma DenseGrow(units: set<int>, brk: int, base: int, n: nat)
    requires Dense(units, brk) && n >= 1 && (units == {} || base == brk) && forall u :: u in units ==> u < brk
    ensures Dense(units + Interval(base, n), base + n)
  {
  }

  /** Total extent of the blocks based in keys. */
  ghost function Total(ext: map<int, int>, keys: set<int>): int
    requires keys <= ext.Keys
  {
    if keys == {} then 0 else
      var b := Pick(keys);
      ext[b] + Total(ext, keys - {b})
  }

  lemma {:induction false} TotalRemove(ext: map<int, int>, keys: set<int>, b: int)
    requires keys <= ext.Keys && b in keys
    ensures Total(ext, keys) == ext[b] + Total(ext, keys - {b})
    decreases keys
  {
    var c := Pick(keys);
    if c != b {
      TotalRemove(ext, keys - {c}, b);
      TotalRemove(ext, keys - {b}, c);
      assert keys - {c} - {b} == keys - {b} - {c};
    }
  }

  lemma {:induction false} TotalUnion(ext: map<int, int>, s: set<int>, t: set<int>)
    requires s <= ext.Keys && t <= ext.Keys && s !! t
    ensures Total(ext, s + t) == Total(ext, s) + Total(ext, t)
    decreases s
  {
    if s == {} {
      assert s + t == t;
    } else {
      var b := Pick(s);
      TotalRemove(ext, s, b);
      TotalRemove(ext, s + t, b);
      assert s + t - {b} == (s - {b}) + t;
      TotalUnion(ext, s - {b}, t);
    }
  }

  lemma {:induction false} TotalSame(ext: map<int, int>, e: map<int, int>, keys: set<int>)
    requires keys <= ext.Keys && keys <= e.Keys
    requires forall b :: b in keys ==> ext[b] == e[b]
    ensures Total(ext, keys) == Total(e, keys)
    decreases keys
  {
    if keys != {} {
      var b := Pick(keys);
      TotalRemove(ext, keys, b);
      TotalRemove(e, keys, b);
      TotalSame(ext, e, keys - {b});
    }
  }

  /** Without block b the other blocks tile the other units. */
  lemma RemoveTiles(ext: map<int, int>, units: set<int>, b: int)
    requires Tiles(ext, units) && b in ext
    ensures Interval(b, ext[b]) <= units
    ensures Tiles(ext - {b}, units - Interval(b, ext[b]))
  {
    var rest, own := ext - {b}, Interval(b, ext[b]);
    forall u | u in own ensures u in units { assert Within(ext, b, u); }
    forall u | u in units - own ensures Covered(rest, u) {
      var d :| Within(ext, d, u);
      assert Within(rest, d, u);
    }
    forall d, u | Within(rest, d, u) ensures u in units - own {
      assert Within(ext, d, u);
    }
  }

  lemma SomeBlock(ext: map<int, int>, units: set<int>, u: int)
    requires Tiles(ext, units) && u in units
    ensures ext.Keys != {}
  {
    var b :| Within(ext, b, u);
  }

  lemma NoBlocksNoUnits(ext: map<int, int>, units: set<int>)
    requires Tiles(ext, units) && ext.Keys == {}
    ensures units == {}
  {
    if units != {} {
      SomeBlock(ext, units, Pick(units));
    }
  }

  lemma SetSplit(own: set<int>, units: set<int>)
    requires own <= units
    ensures |units| == |units - own| + |own|
  {
    assert units == (units - own) + own;
  }

  /** Conservation: the extents of a tiling add up to the number of units. */
  lemma {:induction false} TilesCount(ext: map<int, int>, units: set<int>)
    requires Tiles(ext, units)
    ensures Total(ext, ext.Keys) == |units|
    decreases ext.Keys
  {
    if ext.Keys == {} {
      NoBlocksNoUnits(ext, units);
    } else {
      var b := Pick(ext.Keys);
      var rest, own := ext - {b}, Interval(b, ext[b]);
      RemoveTiles(ext, units, b);
      TilesCount(rest, units - own);
      TotalRemove(ext, ext.Keys, b);
      TotalSame(ext, rest, rest.Keys);
      IntervalSize(b, ext[b]);
      SetSplit(own, units);
      assert rest.Keys == ext.Keys - {b};
    }
  }
}
