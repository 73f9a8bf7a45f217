/** The leader's circular list of followers, 2PCKVStore/tpcleader.c:47-136. */
module Ring {
  import opened Basics

  /** One registered follower. */
  class Member {
    const id: int
    const host: string
    const port: int
    var next: Member?
    var prev: Member?

    constructor (id: int, host: string, port: int)
      ensures this.id == id && this.host == host && this.port == port && next == this && prev == this
    {
      this.id, this.host, this.port := id, host, port;
      next, prev := this, this;
    }
  }

  ghost predicate Ascending(ring: seq<Member>) {
    forall i, j :: 0 <= i < j < |ring| ==> ring[i].id < ring[j].id
  }

  /** One circle, with prev and next mutually inverse. */
  ghost predicate Linked(ring: seq<Member>)
    reads ring
  {
    && (forall i, j :: 0 <= i < |ring| && j == i + 1 < |ring| ==> ring[i].next == ring[j] && ring[j].prev == ring[i])
    && (|ring| > 0 ==> ring[|ring| - 1].next == ring[0] && ring[0].prev == ring[|ring| - 1])
  }

  lemma Link(ring: seq<Member>, i: nat)
    requires Linked(ring) && i < |ring|
    ensures ring[i].next == ring[Succ(i, |ring|)] && ring[Succ(i, |ring|)].prev == ring[i]
  {
  }

  lemma SingleLinked(m: Member)
    requires m.next == m && m.prev == m
    ensures Linked([m])
  {
  }

  ghost function Nexts(ring: seq<Member>): (r: seq<Member?>)
    reads ring
    ensures |r| == |ring| && forall i :: 0 <= i < |ring| ==> r[i] == ring[i].next
  {
    seq(|ring|, i requires 0 <= i < |ring| reads ring => ring[i].next)
  }

  ghost function Prevs(ring: seq<Member>): (r: seq<Member?>)
    reads ring
    ensures |r| == |ring| && forall i :: 0 <= i < |ring| ==> r[i] == ring[i].prev
  {
    seq(|ring|, i requires 0 <= i < |ring| reads ring => ring[i].prev)
  }

  /** The links nx and pv make the ring one circle. */
  ghost predicate Circle(ring: seq<Member>, nx: seq<Member?>, pv: seq<Member?>) {
    && |nx| == |pv| == |ring|
    && (forall i, j :: 0 <= i < |ring| && j == i + 1 < |ring| ==> nx[i] == ring[j] && pv[j] == ring[i])
    && (|ring| > 0 ==> nx[|ring| - 1] == ring[0] && pv[0] == ring[|ring| - 1])
  }

  lemma LinkedSnapshots(ring: seq<Member>)
    requires Linked(ring)
    ensures Circle(ring, Nexts(ring), Prevs(ring))
  {
  }

  /** Changing two links of the circle and setting those of m gives the circle
      with m inserted. */
  lemma SplicedLinks(ring: seq<Member>, m: Member, k: nat, nx: seq<Member?>, pv: seq<Member?>)
    requires |ring| > 0 && k <= |ring| && Circle(ring, nx, pv)
    requires var q, c := if k > 0 then k - 1 else |ring| - 1, if k < |ring| then k else 0;
      && m.next == ring[c] && m.prev == ring[q] && ring[q].next == m && ring[c].prev == m
      && (forall i :: 0 <= i < |ring| && i != q ==> ring[i].next == nx[i])
      && (forall i :: 0 <= i < |ring| && i != c ==> ring[i].prev == pv[i])
    ensures Linked(Insert(ring, m, k))
  {
    var r := Insert(ring, m, k);
    forall i, j | 0 <= i < |r| && j == i + 1 < |r| ensures r[i].next == r[j] && r[j].prev == r[i] {
      if i + 1 < k {
        assert r[i] == ring[i] && r[j] == ring[j];
      } else if i > k {
        assert r[i] == ring[i - 1] && r[j] == ring[i];
      }
    }
  }

  function Insert(ring: seq<Member>, m: Member, k: nat): seq<Member>
    requires k <= |ring|
  {
    ring[..k] + [m] + ring[k..]
  }

  /** Position k holds the least id above hash, or is the head when there is none. */
  ghost predicate IsPrimary(ring: seq<Member>, hash: int, k: nat) {
    && k < |ring|
    && ((exists m :: m in ring && m.id > hash) ==> ring[k].id > hash && forall m :: m in ring && m.id > hash ==> ring[k].id <= m.id)
    && ((forall m :: m in ring ==> m.id <= hash) ==> k == 0)
  }

  class Leader {
    const capacity: nat
    var count: nat
    var head: Member?
    /** The followers from the head on. */
    ghost var ring: seq<Member>

    ghost predicate Valid()
      reads this, ring
    {
      && count == |ring| <= capacity
      && (head == null <==> ring == [])
      && (ring != [] ==> head == ring[0])
      && Ascending(ring)
      && Linked(ring)
    }

    constructor (capacity: nat)
      ensures Valid() && ring == [] && this.capacity == capacity
    {
      this.capacity := capacity;
      count, head, ring := 0, null, [];
    }

    /** Links m in before curr, tpcleader.c:80-83 and 94-97. */
    method Splice(m: Member, curr: Member, ghost k: nat)
      requires Linked(ring) && |ring| > 0 && Ascending(ring) && k <= |ring| && m !in ring
      requires curr == if k < |ring| then ring[k] else ring[0]
      modifies ring, m
      ensures Linked(Insert(ring, m, k))
    {
      ghost var q := if k > 0 then k - 1 else |ring| - 1;
      ghost var nx, pv := Nexts(ring), Prevs(ring);
      Link(ring, q);
      LinkedSnapshots(ring);
      hide Linked;
      m.next := curr;
      m.prev := curr.prev;
      curr.prev := m;
      m.prev.next := m;
      SplicedLinks(ring, m, k, nx, pv);
    }

    /** tpcleader_register, tpcleader.c:47-103; id is the hash of PORT:HOST. */
    method Register(id: int, host: string, port: int) returns (ok: bool, ghost k: nat)
      requires Valid()
      modifies this, ring
      ensures Valid()
      ensures ok <==> old(count) < capacity
      ensures !ok || (exists i :: 0 <= i < |old(ring)| && old(ring)[i].id == id) ==> ring == old(ring)
      ensures ok && (forall i :: 0 <= i < |old(ring)| ==> old(ring)[i].id != id) ==>
        k < |ring| && k <= |old(ring)| && fresh(ring[k]) && ring[k].id == id && ring == Insert(old(ring), ring[k], k)
        && ring[k].host == host && ring[k].port == port
    {
      hide Linked;
      k := 0;
      if count == capacity {
        return false, k;
      }
      var m := new Member(id, host, port);
      ok := true;
      if head == null {
        head, count, ring := m, count + 1, [m];
        SingleLinked(m);
        return;
      }
      var curr, wrapped;
      curr, wrapped, k := FindPlace(id);
      if !wrapped && curr.id == id {
        return;
      }
      Splice(m, curr, k);
      InsertAscending(ring, m, k);
      if !wrapped && curr == head {
        head := m;
      }
      count := count + 1;
      ring := Insert(ring, m, k);
    }

    /** The search loop of tpcleader_register, tpcleader.c:78-92: the first follower
        whose id is not below the new one, or round to the head. */
    method FindPlace(id: int) returns (curr: Member, wrapped: bool, ghost k: nat)
      requires Valid() && head != null
      ensures k <= |ring| && curr == (if k < |ring| then ring[k] else ring[0])
      ensures wrapped <==> k == |ring|
      ensures forall i :: 0 <= i < k ==> ring[i].id < id
      ensures forall i :: k <= i < |ring| ==> ring[i].id >= id
      ensures if wrapped then curr == head else curr.id >= id
    {
      curr, k := head, 0;
      while true
        invariant k < |ring| && curr == ring[k]
        invariant forall i :: 0 <= i < k ==> ring[i].id < id
        decreases |ring| - k
      {
        if curr.id >= id {
          return curr, false, k;
        }
        Link(ring, k);
        k := k + 1;
        curr := curr.next;
        if curr == head {
          return curr, true, k;
        }
      }
    }

    /** tpcleader_get_primary, tpcleader.c:110-126: the follower with the least id
        above the key's hash, or the one with the lowest id.  A leader of capacity 0
        has no follower to start from: the source follows a null pointer. */
    method GetPrimary(hash: int) returns (primary: Member?, crashed: bool, ghost k: nat)
      requires Valid()
      ensures crashed <==> capacity == 0
      ensures primary == null <==> crashed || count < capacity
      ensures primary != null ==> k < |ring| && primary == ring[k]
      ensures primary != null ==> IsPrimary(ring, hash, k)
    {
      crashed, k := false, 0;
      if count < capacity {
        return null, false, 0;
      }
      if head == null {
        return null, true, 0;
      }
      var curr := head;
      while true
        invariant k < |ring| && curr == ring[k]
        invariant forall i :: 0 <= i < k ==> ring[i].id <= hash
        decreases |ring| - k
      {
        if curr.id > hash {
          assert curr in ring;
          return curr, false, k;
        }
        Link(ring, k);
        k := k + 1;
        curr := curr.next;
        if curr == head {
          assert forall m :: m in ring ==> m.id <= hash;
          return curr, false, 0;
        }
      }
    }

    /** tpcleader_get_successor, tpcleader.c:131-136. */
    method GetSuccessor(predecessor: Member, ghost i: nat) returns (result: Member)
      requires Valid() && i < |ring| && predecessor == ring[i]
      ensures result == ring[Succ(i, |ring|)]
    {
      Link(ring, i);
      result := predecessor.next;
    }
  }

  /** What a follower sends to register; id is the hash of its address. */
  datatype Registration = Registration(id: int, host: string, port: int)

  /** m carries the data of the first accepted registration with its id. */
  ghost predicate FirstAccepted(regs: seq<Registration>, accepted: seq<bool>, m: Member, i: nat) {
    && i < |accepted| <= |regs| && accepted[i] && regs[i] == Registration(m.id, m.host, m.port)
    && forall j :: 0 <= j < i && accepted[j] ==> regs[j].id != m.id
  }

  ghost predicate HasSource(regs: seq<Registration>, accepted: seq<bool>, m: Member) {
    exists i: nat :: FirstAccepted(regs, accepted, m, i)
  }

  ghost predicate HasId(ring: seq<Member>, id: int) {
    exists t :: 0 <= t < |ring| && ring[t].id == id
  }

  ghost predicate Known(ring: seq<Member>, regs: seq<Registration>, accepted: seq<bool>) {
    && |accepted| <= |regs|
    && (forall t :: 0 <= t < |ring| ==> HasSource(regs, accepted, ring[t]))
    && (forall i :: 0 <= i < |accepted| && accepted[i] ==> HasId(ring, regs[i].id))
  }

  lemma SourceKept(regs: seq<Registration>, accepted: seq<bool>, ok: bool, m: Member)
    requires HasSource(regs, accepted, m) && |accepted| < |regs|
    ensures HasSource(regs, accepted + [ok], m)
  {
    var i: nat :| FirstAccepted(regs, accepted, m, i);
    assert FirstAccepted(regs, accepted + [ok], m, i);
  }

  lemma KnownStill(ring: seq<Member>, regs: seq<Registration>, accepted: seq<bool>, ok: bool)
    requires Known(ring, regs, accepted) && |accepted| < |regs| && (ok ==> HasId(ring, regs[|accepted|].id))
    ensures Known(ring, regs, accepted + [ok])
  {
    hide HasSource, HasId;
    forall t | 0 <= t < |ring| ensures HasSource(regs, accepted + [ok], ring[t]) {
      SourceKept(regs, accepted, ok, ring[t]);
    }
  }

  lemma NewSource(ring: seq<Member>, regs: seq<Registration>, accepted: seq<bool>, m: Member)
    requires Known(ring, regs, accepted) && |accepted| < |regs| && !HasId(ring, m.id)
    requires regs[|accepted|] == Registration(m.id, m.host, m.port)
    ensures HasSource(regs, accepted + [true], m)
  {
    hide HasSource, HasId;
    forall j | 0 <= j < |accepted| && accepted[j] ensures regs[j].id != m.id {
      assert HasId(ring, regs[j].id);
    }
    SourceIs(regs, accepted + [true], m, |accepted|);
  }

  lemma SourceIs(regs: seq<Registration>, accepted: seq<bool>, m: Member, i: nat)
    requires FirstAccepted(regs, accepted, m, i)
    ensures HasSource(regs, accepted, m)
  {
  }

  lemma InsertHasId(ring: seq<Member>, m: Member, k: nat, id: int)
    requires k <= |ring| && (HasId(ring, id) || id == m.id)
    ensures HasId(Insert(ring, m, k), id)
  {
    var r := Insert(ring, m, k);
    assert r[k] == m;
    if HasId(ring, id) {
      var t :| 0 <= t < |ring| && ring[t].id == id;
      assert r[if t < k then t else t + 1] == ring[t];
    }
  }

  lemma KnownMore(ring: seq<Member>, regs: seq<Registration>, accepted: seq<bool>, m: Member, k: nat)
    requires Known(ring, regs, accepted) && |accepted| < |regs| && k <= |ring| && !HasId(ring, m.id)
    requires regs[|accepted|] == Registration(m.id, m.host, m.port)
    ensures Known(Insert(ring, m, k), regs, accepted + [true])
  {
    NewSource(ring, regs, accepted, m);
    hide HasSource, HasId;
    var r, n := Insert(ring, m, k), |accepted|;
    forall t | 0 <= t < |r| ensures HasSource(regs, accepted + [true], r[t]) {
      if t != k { SourceKept(regs, accepted, true, ring[if t < k then t else t - 1]); }
    }
    forall i | 0 <= i <= n && (accepted + [true])[i] ensures HasId(r, regs[i].id) {
      InsertHasId(ring, m, k, regs[i].id);
    }
  }

  /** Any run of registrations: the followers are exactly the ids of the accepted ones,
      each with the host and port of the first accepted registration with its id. */
  method RegisterAll(capacity: nat, regs: seq<Registration>) returns (leader: Leader, accepted: seq<bool>)
    ensures fresh(leader) && leader.Valid() && leader.capacity == capacity
    ensures |accepted| == |regs| && Known(leader.ring, regs, accepted)
  {
    leader := new Leader(capacity);
    accepted := [];
    for n := 0 to |regs|
      invariant fresh(leader) && fresh(leader.ring) && leader.Valid() && leader.capacity == capacity
      invariant |accepted| == n && Known(leader.ring, regs, accepted)
    {
      accepted := RegisterOne(leader, regs, accepted);
    }
  }

  method RegisterOne(leader: Leader, regs: seq<Registration>, accepted: seq<bool>) returns (accepted': seq<bool>)
    requires leader.Valid() && |accepted| < |regs| && Known(leader.ring, regs, accepted)
    modifies leader, leader.ring
    ensures leader.Valid() && accepted' == accepted + [old(leader.count) < leader.capacity]
    ensures Known(leader.ring, regs, accepted')
    ensures forall t :: 0 <= t < |leader.ring| ==> leader.ring[t] in old(leader.ring) || fresh(leader.ring[t])
  {
    hide Known, Linked, Ascending;
    var reg := regs[|accepted|];
    ghost var ring := leader.ring;
    var ok;
    ghost var k;
    ok, k := leader.Register(reg.id, reg.host, reg.port);
    if ok && !HasId(ring, reg.id) {
      KnownMore(ring, regs, accepted, leader.ring[k], k);
    } else {
      KnownStill(ring, regs, accepted, ok);
    }
    accepted' := accepted + [ok];
  }

  lemma InsertAscending(ring: seq<Member>, m: Member, k: nat)
    requires Ascending(ring) && k <= |ring|
    requires forall i :: 0 <= i < k ==> ring[i].id < m.id
    requires forall i :: k <= i < |ring| ==> ring[i].id > m.id
    ensures Ascending(Insert(ring, m, k))
  {
    var r := Insert(ring, m, k);
    assert forall i :: 0 <= i < |r| ==> r[i] == if i < k then ring[i] else if i == k then m else ring[i - 1];
  }

  /** Position reached from p after j successor steps on a circle of n. */
  function Walk(p: nat, j: nat, n: nat): nat
    requires p < n
  {
    if j == 0 then p else Succ(Walk(p, j - 1, n), n)
  }

  /** The member reached from m by following next j times; null off the ring. */
  ghost function Follow(ring: seq<Member>, m: Member?, j: nat): Member?
    reads ring
  {
    if j == 0 then m
    else
      var x := Follow(ring, m, j - 1);
      if x == null || x !in ring then null else x.next
  }

  /** Following next goes round the ring position by position. */
  lemma {:induction false} FollowWalks(ring: seq<Member>, p: nat, j: nat)
    requires Linked(ring) && p < |ring|
    ensures Walk(p, j, |ring|) < |ring| && Follow(ring, ring[p], j) == ring[Walk(p, j, |ring|)]
  {
    hide Linked;
    if j > 0 {
      FollowWalks(ring, p, j - 1);
      Link(ring, Walk(p, j - 1, |ring|));
    }
  }

  lemma {:induction false} WalkPosition(p: nat, j: nat, n: nat)
    requires p < n && j <= n
    ensures Walk(p, j, n) == if p + j < n then p + j else p + j - n
  {
    if j > 0 { WalkPosition(p, j - 1, n); }
  }

  ghost predicate Visited(ring: seq<Member>, p: nat, m: Member)
    requires p < |ring|
    reads ring
  {
    exists j: nat :: j < |ring| && Follow(ring, ring[p], j) == m
  }

  /** Following next from any follower of a leader visits each follower exactly once
      before it is back where it started. */
  lemma WalkVisitsOnce(leader: Leader, p: nat)
    requires leader.Valid() && p < |leader.ring|
    ensures var ring, n := leader.ring, |leader.ring|;
      && Follow(ring, ring[p], n) == ring[p]
      && (forall i, j :: 0 <= i < j < n ==> Follow(ring, ring[p], i) != Follow(ring, ring[p], j))
      && (forall m :: m in ring <==> Visited(ring, p, m))
  {
    hide Linked, Follow, Walk;
    var ring, n := leader.ring, |leader.ring|;
    FollowWalks(ring, p, n);
    WalkPosition(p, n, n);
    forall i, j | 0 <= i < j < n ensures Follow(ring, ring[p], i) != Follow(ring, ring[p], j) {
      FollowWalks(ring, p, i);
      FollowWalks(ring, p, j);
      WalkPosition(p, i, n);
      WalkPosition(p, j, n);
    }
    forall m | m in ring ensures Visited(ring, p, m) {
      var t: nat :| t < n && ring[t] == m;
      var j: nat := if t >= p then t - p else t + n - p;
      WalkPosition(p, j, n);
      FollowWalks(ring, p, j);
    }
    forall m | Visited(ring, p, m) ensures m in ring {
      var j: nat :| j < n && Follow(ring, ring[p], j) == m;
      FollowWalks(ring, p, j);
    }
  }
}
