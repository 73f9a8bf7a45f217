/** The hash-chained file store of 2PCKVStore/kvstore.c.  A file name is a hash
    and a chain position; a file holds one packed entry. */
module KvStore {

  const MAX_KEYLEN := 1024
  const MAX_VALLEN := 1024

  const ERR_KEYLEN := -11
  const ERR_VALLEN := -12
  const ERR_NOKEY := -13
  const ERR_FILACCESS := -17

  // ---------- packed entries ----------

  /** A C string: characters before the terminating NUL. */
  ghost predicate IsText(s: string) {
    '\0' !in s
  }

  /** The data of an entry: key and value, each NUL-terminated (kvstore.c:133-135). */
  function Pack(key: string, value: string): string {
    key + ['\0'] + value + ['\0']
  }

  /** The C string starting at position i. */
  function TextAt(data: string, i: nat): string
    requires i <= |data|
    decreases |data| - i
  {
    if i == |data| || data[i] == '\0' then "" else [data[i]] + TextAt(data, i + 1)
  }

  lemma {:induction false} TextAtPrefix(data: string, i: nat, s: string)
    requires IsText(s) && i + |s| < |data| && data[i..i + |s|] == s && data[i + |s|] == '\0'
    ensures TextAt(data, i) == s
    decreases |s|
  {
    if s != [] {
      assert data[i] == data[i..i + |s|][0] == s[0] && s[0] in s;
      assert data[i + 1..i + |s|] == s[1..];
      TextAtPrefix(data, i + 1, s[1..]);
    }
  }

  /** Reading back what was packed (kvstore.c:60-62) gives the same key and value. */
  lemma PackRoundTrip(key: string, value: string)
    requires IsText(key) && IsText(value)
    ensures TextAt(Pack(key, value), 0) == key
    ensures TextAt(Pack(key, value), |key| + 1) == value
  {
    TextAtPrefix(Pack(key, value), 0, key);
    TextAtPrefix(Pack(key, value), |key| + 1, value);
  }

  // ---------- chains ----------

  datatype Entry = Entry(key: string, value: string)

  type FileName = (int, nat)

  /** A chain's keys are distinct C strings of legal length that share its hash. */
  ghost predicate GoodChain(hash: string -> int, h: int, chain: seq<Entry>) {
    && (forall p :: 0 <= p < |chain| ==> hash(chain[p].key) == h)
    && (forall p :: 0 <= p < |chain| ==> IsText(chain[p].key) && IsText(chain[p].value) && |chain[p].key| <= MAX_KEYLEN)
    && (forall p, q :: 0 <= p < q < |chain| ==> chain[p].key != chain[q].key)
  }

  /** Position of key in the chain, or the chain's length. */
  function Find(chain: seq<Entry>, key: string): (p: nat)
    ensures p <= |chain| && (p < |chain| ==> chain[p].key == key)
    ensures forall q :: 0 <= q < p ==> chain[q].key != key
  {
    if chain == [] || chain[0].key == key then 0 else 1 + Find(chain[1..], key)
  }

  /** Deleting by moving the last entry into the hole. */
  function MoveLast(chain: seq<Entry>, p: nat): seq<Entry>
    requires p < |chain|
  {
    var init := chain[..|chain| - 1];
    if p == |chain| - 1 then init else init[p := chain[|chain| - 1]]
  }

  /** The value a chain holds for a key. */
  ghost predicate Holds(chain: seq<Entry>, key: string, value: string) {
    exists p :: 0 <= p < |chain| && chain[p] == Entry(key, value)
  }

  /** Moving the last entry into the hole loses and duplicates no other key. */
  lemma MoveLastKeeps(hash: string -> int, h: int, chain: seq<Entry>, p: nat)
    requires GoodChain(hash, h, chain) && p < |chain|
    ensures GoodChain(hash, h, MoveLast(chain, p))
    ensures forall k, v :: Holds(MoveLast(chain, p), k, v) <==> Holds(chain, k, v) && k != chain[p].key
  {
    var r, n := MoveLast(chain, p), |chain| - 1;
    assert forall q :: 0 <= q < |r| ==> r[q] == chain[if q == p then n else q];
    forall k, v ensures Holds(r, k, v) <==> Holds(chain, k, v) && k != chain[p].key {
      if Holds(r, k, v) {
        var q :| 0 <= q < |r| && r[q] == Entry(k, v);
        assert chain[if q == p then n else q] == Entry(k, v);
      }
      if Holds(chain, k, v) && k != chain[p].key {
        var q :| 0 <= q < |chain| && chain[q] == Entry(k, v);
        assert r[if q == n then p else q] == Entry(k, v);
      }
    }
  }

  lemma AppendKeeps(hash: string -> int, h: int, chain: seq<Entry>, e: Entry)
    requires GoodChain(hash, h, chain) && hash(e.key) == h && Find(chain, e.key) == |chain|
    requires IsText(e.key) && IsText(e.value) && |e.key| <= MAX_KEYLEN
    ensures GoodChain(hash, h, chain + [e])
    ensures forall k, v :: Holds(chain + [e], k, v) <==> Holds(chain, k, v) || (k == e.key && v == e.value)
  {
    var r := chain + [e];
    forall k, v ensures Holds(r, k, v) <==> Holds(chain, k, v) || (k == e.key && v == e.value) {
      if Holds(chain, k, v) {
        var q :| 0 <= q < |chain| && chain[q] == Entry(k, v);
        assert r[q] == Entry(k, v);
      }
      assert r[|chain|] == e;
    }
  }

  lemma UpdateKeeps(hash: string -> int, h: int, chain: seq<Entry>, p: nat, value: string)
    requires GoodChain(hash, h, chain) && p < |chain| && IsText(value)
    ensures GoodChain(hash, h, chain[p := Entry(chain[p].key, value)])
    ensures forall k, v :: Holds(chain[p := Entry(chain[p].key, value)], k, v) <==>
      (if k == chain[p].key then v == value else Holds(chain, k, v))
  {
    var r := chain[p := Entry(chain[p].key, value)];
    forall k, v ensures Holds(r, k, v) <==> (if k == chain[p].key then v == value else Holds(chain, k, v)) {
      assert r[p] == Entry(chain[p].key, value);
      if k != chain[p].key && Holds(chain, k, v) {
        var q :| 0 <= q < |chain| && chain[q] == Entry(k, v);
        assert r[q] == Entry(k, v);
      }
    }
  }

  // ---------- the directory ----------

  type Dir = map<FileName, string>

  ghost function Chain(chains: map<int, seq<Entry>>, h: int): seq<Entry> {
    if h in chains then chains[h] else []
  }

  /** The directory holds exactly the chains: complete, with no gap. */
  ghost predicate Stored(dir: Dir, chains: map<int, seq<Entry>>) {
    && (forall n :: n in dir <==> n.1 < |Chain(chains, n.0)|)
    && (forall n :: n in dir ==> dir[n] == Pack(Chain(chains, n.0)[n.1].key, Chain(chains, n.0)[n.1].value))
  }

  /** The chains denote the map. */
  ghost predicate Denotes(hash: string -> int, chains: map<int, seq<Entry>>, contents: map<string, string>) {
    && (forall h :: h in chains ==> GoodChain(hash, h, chains[h]))
    && (forall k, v :: Holds(Chain(chains, hash(k)), k, v) <==> k in contents && contents[k] == v)
  }

  /** Looking a key up in its chain is looking it up in the map. */
  lemma FindIsLookup(hash: string -> int, chains: map<int, seq<Entry>>, contents: map<string, string>, key: string)
    requires Denotes(hash, chains, contents)
    ensures var c := Chain(chains, hash(key)); var p := Find(c, key);
      (p < |c| <==> key in contents) && (p < |c| ==> contents[key] == c[p].value)
  {
    var c := Chain(chains, hash(key));
    var p := Find(c, key);
    if p < |c| { assert Holds(c, key, c[p].value) by { assert c[p] == Entry(key, c[p].value); } }
    if key in contents { assert Holds(c, key, contents[key]); }
  }

  /** Replacing one chain by a good one replaces its part of the map. */
  lemma DenotesUpdate(hash: string -> int, chains: map<int, seq<Entry>>, contents: map<string, string>,
                      h: int, chain: seq<Entry>, after: map<string, string>)
    requires Denotes(hash, chains, contents) && GoodChain(hash, h, chain)
    requires forall k :: hash(k) != h ==> (k in after <==> k in contents) && (k in after ==> after[k] == contents[k])
    requires forall k, v :: hash(k) == h ==> (Holds(chain, k, v) <==> k in after && after[k] == v)
    ensures Denotes(hash, chains[h := chain], after)
  {
    hide GoodChain, Holds;
    var cs := chains[h := chain];
    forall k, v ensures Holds(Chain(cs, hash(k)), k, v) <==> k in after && after[k] == v {
      assert hash(k) != h ==> Chain(cs, hash(k)) == Chain(chains, hash(k));
    }
  }

  lemma DenotesGood(hash: string -> int, chains: map<int, seq<Entry>>, contents: map<string, string>, h: int)
    requires Denotes(hash, chains, contents)
    ensures GoodChain(hash, h, Chain(chains, h))
  {
  }

  class Store {
    const hash: string -> int
    var present: bool
    var dir: Dir
    ghost var chains: map<int, seq<Entry>>
    ghost var contents: map<string, string>

    ghost predicate Valid()
      reads this
    {
      Stored(dir, chains) && Denotes(hash, chains, contents)
    }

    constructor (hash: string -> int)
      ensures Valid() && present && contents == map[] && this.hash == hash
    {
      this.hash := hash;
      present, dir := true, map[];
      chains, contents := map[], map[];
    }

    /** find_entry, kvstore.c:36-70. */
    method FindEntry(key: string) returns (ret: int, value: string)
      requires Valid() && IsText(key)
      ensures |key| > MAX_KEYLEN ==> ret == ERR_KEYLEN
      ensures |key| <= MAX_KEYLEN && !present ==> ret == ERR_FILACCESS
      ensures |key| <= MAX_KEYLEN && present ==> (ret >= 0 <==> key in contents) && (key !in contents ==> ret == ERR_NOKEY)
      ensures ret >= 0 ==> ret == Find(Chain(chains, hash(key)), key) < |Chain(chains, hash(key))| && value == contents[key]
    {
      hide GoodChain, Denotes, Holds;
      value := "";
      if |key| > MAX_KEYLEN {
        return ERR_KEYLEN, value;
      }
      if !present {
        return ERR_FILACCESS, value;
      }
      var h := hash(key);
      ghost var chain := Chain(chains, h);
      FindIsLookup(hash, chains, contents, key);
      DenotesGood(hash, chains, contents, h);
      var counter: nat := 0;
      while (h, counter) in dir
        invariant counter <= Find(chain, key)
        decreases |chain| - counter
      {
        var data := dir[(h, counter)];
        EntryText(hash, h, chain, counter);
        if key == TextAt(data, 0) {
          return counter, TextAt(data, |key| + 1);
        }
        counter := counter + 1;
      }
      return ERR_NOKEY, value;
    }

    /** kvstore_get, kvstore.c:78-84. */
    method Get(key: string) returns (ret: int, value: string)
      requires Valid() && IsText(key)
      ensures |key| <= MAX_KEYLEN && present ==> ret == if key in contents then 0 else ERR_NOKEY
      ensures |key| > MAX_KEYLEN ==> ret == ERR_KEYLEN
      ensures |key| <= MAX_KEYLEN && !present ==> ret == ERR_FILACCESS
      ensures ret == 0 ==> key in contents && value == contents[key]
    {
      ret, value := FindEntry(key);
      if ret >= 0 {
        ret := 0;
      }
    }

    /** kvstore_put_check, kvstore.c:88-97. */
    function PutCheck(key: string, value: string): int
      reads this
    {
      if |key| > MAX_KEYLEN then ERR_KEYLEN
      else if |value| > MAX_VALLEN then ERR_VALLEN
      else if !present then ERR_FILACCESS
      else 0
    }

    /** The first free position of a chain at or after from (kvstore.c:120-124, 173-176). */
    method ChainEnd(h: int, from: nat) returns (counter: nat)
      requires Valid() && from <= |Chain(chains, h)|
      ensures counter == |Chain(chains, h)|
    {
      hide Denotes;
      counter := from;
      while (h, counter) in dir
        invariant counter <= |Chain(chains, h)|
        decreases |Chain(chains, h)| - counter
      {
        counter := counter + 1;
      }
    }

    /** kvstore_put, kvstore.c:102-141, with every file operation succeeding. */
    method Put(key: string, value: string) returns (ret: int)
      requires Valid() && IsText(key) && IsText(value)
      modifies this`dir, this`chains, this`contents
      ensures Valid()
      ensures ret == if |key| > MAX_KEYLEN then ERR_KEYLEN else if |value| > MAX_VALLEN then ERR_VALLEN else if !present then ERR_FILACCESS else 0
      ensures ret == 0 ==> contents == old(contents)[key := value]
      ensures ret != 0 ==> contents == old(contents) && dir == old(dir)
    {
      ret := PutCheck(key, value);
      if ret < 0 {
        return;
      }
      hide GoodChain, Denotes, Holds, Stored, Chain, Pack;
      var h := hash(key);
      ghost var chain := Chain(chains, h);
      DenotesGood(hash, chains, contents, h);
      FindIsLookup(hash, chains, contents, key);
      var found, _ := FindEntry(key);
      var counter: nat := 0;
      if found >= 0 {
        counter := found;
      } else {
        counter := ChainEnd(h, 0);
      }
      ghost var chain' := if found >= 0 then chain[counter := Entry(key, value)] else chain + [Entry(key, value)];
      dir := dir[(h, counter) := Pack(key, value)];
      PutDenotes(hash, chains, contents, key, value, chain');
      chains := chains[h := chain'];
      contents := contents[key := value];
      StoredPut(old(dir), old(chains), h, counter, key, value, chain', dir);
      ret := 0;
    }

    /** kvstore_del_check, kvstore.c:145-154. */
    method DelCheck(key: string) returns (ret: int)
      requires Valid() && IsText(key)
      ensures ret == if |key| > MAX_KEYLEN then ERR_KEYLEN else if !present then ERR_FILACCESS else if key !in contents then ERR_NOKEY else 0
    {
      if |key| > MAX_KEYLEN {
        return ERR_KEYLEN;
      }
      if !present {
        return ERR_FILACCESS;
      }
      var pos, _ := FindEntry(key);
      return if pos >= 0 then 0 else ERR_NOKEY;
    }

    /** kvstore_del, kvstore.c:159-196, with every file operation succeeding. */
    method Del(key: string) returns (ret: int)
      requires Valid() && IsText(key)
      modifies this`dir, this`chains, this`contents
      ensures Valid()
      ensures ret == if |key| > MAX_KEYLEN then ERR_KEYLEN else if !present then ERR_FILACCESS else if key !in old(contents) then ERR_NOKEY else 0
      ensures contents == if ret == 0 then old(contents) - {key} else old(contents)
    {
      hide GoodChain, Denotes, Holds, Stored, Chain, MoveLast;
      var chainpos, _ := FindEntry(key);
      if chainpos < 0 {
        return chainpos;
      }
      var pos: nat := chainpos;
      var h := hash(key);
      ghost var chain := Chain(chains, h);
      DenotesGood(hash, chains, contents, h);
      var counter := ChainEnd(h, pos + 1);
      StoredAt(dir, chains, h, counter - 1);
      if counter == pos + 1 {
        dir := dir - {(h, pos)};
      } else {
        dir := dir[(h, pos) := dir[(h, counter - 1)]] - {(h, counter - 1)};
      }
      DelDenotes(hash, chains, contents, key, pos);
      chains := chains[h := MoveLast(chain, pos)];
      contents := contents - {key};
      StoredDel(old(dir), old(chains), h, pos, dir);
      return 0;
    }
  }

  lemma StoredAt(dir: Dir, chains: map<int, seq<Entry>>, h: int, p: nat)
    requires Stored(dir, chains)
    ensures (h, p) in dir <==> p < |Chain(chains, h)|
  {
  }

  lemma PutDenotes(hash: string -> int, chains: map<int, seq<Entry>>, contents: map<string, string>,
                   key: string, value: string, chain': seq<Entry>)
    requires Denotes(hash, chains, contents) && IsText(key) && IsText(value) && |key| <= MAX_KEYLEN
    requires var c := Chain(chains, hash(key)); var p := Find(c, key);
      chain' == if p < |c| then c[p := Entry(key, value)] else c + [Entry(key, value)]
    ensures Denotes(hash, chains[hash(key) := chain'], contents[key := value])
  {
    hide GoodChain;
    var h := hash(key);
    var c := Chain(chains, h);
    DenotesGood(hash, chains, contents, h);
    FindIsLookup(hash, chains, contents, key);
    if Find(c, key) < |c| {
      UpdateKeeps(hash, h, c, Find(c, key), value);
    } else {
      AppendKeeps(hash, h, c, Entry(key, value));
    }
    PutHolds(hash, chains, contents, key, value, chain');
    DenotesUpdate(hash, chains, contents, h, chain', contents[key := value]);
  }

  lemma PutHolds(hash: string -> int, chains: map<int, seq<Entry>>, contents: map<string, string>,
                 key: string, value: string, chain': seq<Entry>)
    requires Denotes(hash, chains, contents)
    requires forall k, v :: Holds(chain', k, v) <==>
      (if k == key then v == value else Holds(Chain(chains, hash(key)), k, v))
      || (k == key && v == value)
    ensures forall k, v :: hash(k) == hash(key) ==>
      (Holds(chain', k, v) <==> k in contents[key := value] && contents[key := value][k] == v)
  {
    hide Holds, GoodChain;
  }

  lemma DelDenotes(hash: string -> int, chains: map<int, seq<Entry>>, contents: map<string, string>, key: string, p: nat)
    requires Denotes(hash, chains, contents)
    requires p < |Chain(chains, hash(key))| && Chain(chains, hash(key))[p].key == key
    ensures Denotes(hash, chains[hash(key) := MoveLast(Chain(chains, hash(key)), p)], contents - {key})
  {
    hide GoodChain;
    var h := hash(key);
    var c := Chain(chains, h);
    DenotesGood(hash, chains, contents, h);
    MoveLastKeeps(hash, h, c, p);
    DenotesUpdate(hash, chains, contents, h, MoveLast(c, p), contents - {key});
  }

  lemma StoredPut(dir: Dir, chains: map<int, seq<Entry>>, h: int, p: nat, key: string, value: string,
                  chain': seq<Entry>, dir': Dir)
    requires Stored(dir, chains) && dir' == dir[(h, p) := Pack(key, value)] && p <= |Chain(chains, h)|
    requires chain' == if p < |Chain(chains, h)| then Chain(chains, h)[p := Entry(key, value)] else Chain(chains, h) + [Entry(key, value)]
    ensures Stored(dir', chains[h := chain'])
  {
    hide Pack;
    var cs := chains[h := chain'];
    forall n ensures n in dir' <==> n.1 < |Chain(cs, n.0)| {
      assert n.0 != h ==> Chain(cs, n.0) == Chain(chains, n.0);
    }
    forall n | n in dir' ensures dir'[n] == Pack(Chain(cs, n.0)[n.1].key, Chain(cs, n.0)[n.1].value) {
      assert n.0 != h ==> Chain(cs, n.0) == Chain(chains, n.0);
    }
  }

  lemma StoredDel(dir: Dir, chains: map<int, seq<Entry>>, h: int, p: nat, dir': Dir)
    requires Stored(dir, chains) && p < |Chain(chains, h)|
    requires var n := |Chain(chains, h)| - 1;
      (h, n) in dir && dir' == (if p == n then dir - {(h, p)} else dir[(h, p) := dir[(h, n)]] - {(h, n)})
    ensures Stored(dir', chains[h := MoveLast(Chain(chains, h), p)])
  {
    hide Pack;
    var c := Chain(chains, h);
    var cs := chains[h := MoveLast(c, p)];
    forall n ensures n in dir' <==> n.1 < |Chain(cs, n.0)| {
      assert n.0 != h ==> Chain(cs, n.0) == Chain(chains, n.0);
    }
    forall n | n in dir' ensures dir'[n] == Pack(Chain(cs, n.0)[n.1].key, Chain(cs, n.0)[n.1].value) {
      assert n.0 != h ==> Chain(cs, n.0) == Chain(chains, n.0);
    }
  }

  lemma EntryText(hash: string -> int, h: int, chain: seq<Entry>, p: nat)
    requires GoodChain(hash, h, chain) && p < |chain|
    ensures var data := Pack(chain[p].key, chain[p].value);
      TextAt(data, 0) == chain[p].key && TextAt(data, |chain[p].key| + 1) == chain[p].value
  {
    PackRoundTrip(chain[p].key, chain[p].value);
  }
}
