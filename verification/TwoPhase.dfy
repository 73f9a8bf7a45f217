/** The leader's transactions, 2PCKVStore/tpcleader.c:142-252.  The network is an
    oracle: every exchange with a follower may fail before or after the follower
    has handled the request. */
module TwoPhase {
  import opened Basics
  import opened TpcLog
  import opened Follower
  import opened Ring
  import KvMessage
  import KvStore

  /** One exchange: whether the follower handled the request, and whether the
      leader received its reply. */
  datatype Outcome = Outcome(delivered: bool, answered: bool)

  ghost predicate Possible(o: Outcome) {
    o.answered ==> o.delivered
  }

  /** kvrequest_send refuses other kinds (kvmessage.c:111-126, 144-146). */
  predicate Sendable(kind: MsgType) {
    !KvMessage.MethodFor(kind).INVALID?
  }

  /** A request that reached the leader: kvrequest_receive understood some message
      (tpcleader.c:258-279). */
  ghost predicate Received(req: Request) {
    exists msg :: KvMessage.Understand(msg) == Some(req)
  }

  /** The follower understands what the leader sends. */
  ghost predicate Forwardable(req: Request) {
    KvMessage.Sound(req) && (Sendable(req.kind) ==> KvMessage.Accepted(req))
  }

  /** Whatever the leader has received, it can forward, and also the decision about
      it. */
  lemma ReceivedForwardable(req: Request, commit: bool)
    requires Received(req)
    ensures Forwardable(req) && Forwardable(Request(if commit then COMMIT else ABORT, req.key, req.value))
  {
    hide KvMessage.Understand, KvMessage.Clean;
    var msg :| KvMessage.Understand(msg) == Some(req);
    KvMessage.ReceivedIsSound(msg);
  }

  /** Exactly the sound and accepted requests of a kind that can be sent can also be
      received. */
  lemma ReceivedIff(req: Request)
    requires Sendable(req.kind)
    ensures Received(req) <==> KvMessage.Sound(req) && KvMessage.Accepted(req)
  {
    hide KvMessage.Understand, KvMessage.Clean;
    if Received(req) { ReceivedForwardable(req, true); }
    if KvMessage.Sound(req) && KvMessage.Accepted(req) {
      KvMessage.RequestRoundTrip(req);
      assert KvMessage.Understand(KvMessage.Send(req).value) == Some(req);
    }
  }

  function Delivered(node: Node, req: Request, delivered: bool): Node {
    if delivered then Handled(node, req) else node
  }

  /** Exchanges with one follower in phase two: some that fail, handled or not,
      then one that is answered. */
  function Decided(node: Node, req: Request, fails: seq<bool>): Node
    decreases |fails|
  {
    if fails == [] then Handled(node, req)
    else Decided(Delivered(node, req, fails[0]), req, fails[1..])
  }

  /** Steps from p to t round a circle of n. */
  function Dist(p: nat, t: nat, n: nat): (d: nat)
    requires p < n && t < n
    ensures d < n
  {
    if t >= p then t - p else t + n - p
  }

  lemma DistSucc(p: nat, t: nat, n: nat)
    requires p < n && t < n
    ensures Succ(t, n) != p ==> Dist(p, Succ(t, n), n) == Dist(p, t, n) + 1
    ensures Succ(t, n) == p ==> Dist(p, t, n) == n - 1
  {
  }

  // ---------- what the two phases do to the followers ----------

  /** After phase one: a follower has handled the request if it was delivered. */
  function Voted(nodes: map<int, Node>, req: Request, outcomes: map<int, Outcome>): (r: map<int, Node>)
    requires nodes.Keys <= outcomes.Keys
    ensures r.Keys == nodes.Keys
  {
    map id | id in nodes :: Delivered(nodes[id], req, Sendable(req.kind) && outcomes[id].delivered)
  }

  /** After phase two: every follower has handled the decision at least once. */
  function Concluded(nodes: map<int, Node>, req: Request, plan: map<int, seq<bool>>): (r: map<int, Node>)
    requires nodes.Keys <= plan.Keys
    ensures r.Keys == nodes.Keys
  {
    map id | id in nodes :: Decided(nodes[id], req, plan[id])
  }

  /** A whole transaction: phase one with the request, phase two with the decision. */
  function Transacted(nodes: map<int, Node>, req: Request, commit: bool, outcomes: map<int, Outcome>, plan: map<int, seq<bool>>): map<int, Node>
    requires nodes.Keys <= outcomes.Keys && nodes.Keys <= plan.Keys
  {
    Concluded(Voted(nodes, req, outcomes), Request(if commit then COMMIT else ABORT, req.key, req.value), plan)
  }

  /** Followers fewer than j steps after p are as in target, the others as before. */
  ghost predicate Reached(before: map<int, Node>, target: map<int, Node>, nodes: map<int, Node>, ids: seq<int>, p: nat, j: nat)
    requires p < |ids|
  {
    && nodes.Keys == before.Keys == target.Keys
    && (forall t :: 0 <= t < |ids| ==> ids[t] in nodes)
    && (forall t :: 0 <= t < |ids| && Dist(p, t, |ids|) < j ==> nodes[ids[t]] == target[ids[t]])
    && (forall t :: 0 <= t < |ids| && Dist(p, t, |ids|) >= j ==> nodes[ids[t]] == before[ids[t]])
  }

  lemma ReachedStep(before: map<int, Node>, target: map<int, Node>, nodes: map<int, Node>, ids: seq<int>, p: nat, c: nat)
    requires p < |ids| && c < |ids| && Distinct(ids) && Reached(before, target, nodes, ids, p, Dist(p, c, |ids|))
    ensures ids[c] in nodes && ids[c] in target && nodes[ids[c]] == before[ids[c]]
    ensures Reached(before, target, nodes[ids[c] := target[ids[c]]], ids, p, Dist(p, c, |ids|) + 1)
  {
    var after := nodes[ids[c] := target[ids[c]]];
    assert after.Keys == nodes.Keys;
    forall t | 0 <= t < |ids| && t != c ensures ids[t] != ids[c] && Dist(p, t, |ids|) != Dist(p, c, |ids|) {
    }
  }

  /** Once all the way round, every follower is as in target. */
  lemma ReachedAll(before: map<int, Node>, target: map<int, Node>, nodes: map<int, Node>, ids: seq<int>, p: nat)
    requires p < |ids| && Reached(before, target, nodes, ids, p, |ids|) && forall id :: id in nodes ==> id in ids
    ensures nodes == target
  {
    forall id | id in nodes ensures nodes[id] == target[id] {
      var t :| 0 <= t < |ids| && ids[t] == id;
    }
  }

  /** All followers answered in phase one. */
  ghost predicate AllAnswered(ids: seq<int>, req: Request, outcomes: map<int, Outcome>) {
    Sendable(req.kind) && forall t :: 0 <= t < |ids| ==> ids[t] in outcomes && outcomes[ids[t]].answered
  }

  class Cluster {
    const leader: Leader
    const hash: string -> int
    /** The followers' durable states, by follower id. */
    var nodes: map<int, Node>

    ghost function Ids(): (ids: seq<int>)
      reads leader
      ensures |ids| == |leader.ring| && forall i :: 0 <= i < |ids| ==> ids[i] == leader.ring[i].id
    {
      seq(|leader.ring|, i requires 0 <= i < |leader.ring| reads leader => leader.ring[i].id)
    }

    ghost predicate Valid()
      reads this, leader, leader.ring
    {
      && leader.Valid()
      && (forall id :: id in nodes <==> id in Ids())
    }

    lemma DistinctIds()
      requires Valid()
      ensures Distinct(Ids())
    {
    }

    constructor (leader: Leader, hash: string -> int, nodes: map<int, Node>)
      ensures this.leader == leader && this.hash == hash && this.nodes == nodes
    {
      this.leader, this.hash, this.nodes := leader, hash, nodes;
    }

    /** One exchange with one follower over the wire: the leader's kvrequest_send, the
        follower's kvrequest_receive (tpcfollower.c:184-197) and its handling.  The
        follower handles the very request the leader meant. */
    method Exchange(id: int, req: Request, delivered: bool)
      requires id in nodes && Forwardable(req) && Sendable(req.kind)
      modifies this`nodes
      ensures nodes == old(nodes)[id := Delivered(old(nodes)[id], req, delivered)]
    {
      hide KvMessage.Understand, KvMessage.Sound, KvMessage.Accepted, Handled;
      KvMessage.RequestRoundTrip(req);
      var msg := KvMessage.Send(req);
      if delivered && msg.Some? {
        var got := KvMessage.Understand(msg.value);
        if got.Some? && !got.value.kind.INDEX? {
          nodes := nodes[id := Handled(nodes[id], got.value)];
        }
      }
    }

    /** Phase one, tpcleader.c:200-217: abort is set when some exchange was not
        answered; the vote in the answer is never read. */
    method PhaseOne(primary: Member, ghost p: nat, req: Request, outcomes: map<int, Outcome>) returns (abort: bool)
      requires Valid() && p < |leader.ring| && primary == leader.ring[p]
      requires nodes.Keys <= outcomes.Keys && (forall id :: id in nodes ==> Possible(outcomes[id])) && Forwardable(req)
      modifies this`nodes
      ensures Valid() && nodes == Voted(old(nodes), req, outcomes)
      ensures abort <==> !AllAnswered(Ids(), req, outcomes)
    {
      hide Leader.Valid, Forwardable, Polling, Dist, Distinct, Handled, Linked, Ascending, Delivered;
      abort := false;
      var successor := primary;
      ghost var ids, n, c: nat := Ids(), |Ids()|, p;
      DistinctIds();
      PollStart(nodes, req, outcomes, ids, p);
      while true
        invariant c < n && successor == leader.ring[c] && nodes.Keys == old(nodes.Keys)
        invariant Polling(old(nodes), nodes, req, outcomes, ids, p, Dist(p, c, n), abort)
        decreases n - Dist(p, c, n)
      {
        var id := successor.id;
        PollStep(old(nodes), nodes, req, outcomes, ids, p, c, abort);
        if !Sendable(req.kind) {
          abort := true;
        } else {
          Exchange(id, req, outcomes[id].delivered);
          if !outcomes[id].answered {
            abort := true;
          }
        }
        DistSucc(p, c, n);
        successor := leader.GetSuccessor(successor, c);
        c := Succ(c, n);
        if successor == primary {
          SamePosition(c, p);
          PollEnd(old(nodes), nodes, req, outcomes, ids, p, abort);
          break;
        }
      }
    }

    /** Members at different positions are different. */
    lemma SamePosition(c: nat, p: nat)
      requires leader.Valid() && c < |leader.ring| && p < |leader.ring| && leader.ring[c] == leader.ring[p]
      ensures c == p
    {
    }

    /** Phase two, tpcleader.c:224-244: a failed exchange is repeated with the same
        follower (in a do-while, continue goes to the condition); plan lists, for
        each follower, its failing exchanges before the answered one. */
    method PhaseTwo(primary: Member, ghost p: nat, req: Request, plan: map<int, seq<bool>>)
      requires Valid() && p < |leader.ring| && primary == leader.ring[p] && nodes.Keys <= plan.Keys
      requires Forwardable(req) && Sendable(req.kind)
      modifies this`nodes
      ensures Valid() && nodes == Concluded(old(nodes), req, plan)
    {
      hide Leader.Valid, Forwardable, Sendable, Reached, Retrying, Dist, Distinct, Delivered, Linked, Ascending, Decided;
      var first := true;
      var successor := primary;
      var used: nat := 0;
      ghost var ids, n, c: nat := Ids(), |Ids()|, p;
      DistinctIds();
      ReachedNone(nodes, Concluded(nodes, req, plan), ids, p);
      RetryStart(nodes, nodes, req, plan, ids, p, c);
      while true
        invariant c < n && successor == leader.ring[c] && (c == p ==> first) && nodes.Keys == old(nodes.Keys) && ids[c] in plan
        invariant Retrying(old(nodes), nodes, req, plan, ids, p, c, used) && used <= |plan[ids[c]]|
        decreases n - Dist(p, c, n), |plan[ids[c]]| - used
      {
        var id := successor.id;
        if used < |plan[id]| {
          RetryFailed(old(nodes), nodes, req, plan, ids, p, c, used);
          Exchange(id, req, plan[id][used]);
          used := used + 1;
        } else {
          RetryDone(old(nodes), nodes, req, plan, ids, p, c, used);
          Exchange(id, req, true);
          DistSucc(p, c, n);
          successor := leader.GetSuccessor(successor, c);
          c, used, first := Succ(c, n), 0, false;
          if successor != primary {
            RetryStart(old(nodes), nodes, req, plan, ids, p, c);
          }
        }
        if !(successor != primary || first) {
          SamePosition(c, p);
          ReachedAll(old(nodes), Concluded(old(nodes), req, plan), nodes, ids, p);
          break;
        }
      }
    }

    /** tpcleader_handle_tpc, tpcleader.c:179-252; None where a leader of capacity 0
        crashes. */
    method HandleTpc(req: Request, outcomes: map<int, Outcome>, plan: map<int, seq<bool>>) returns (res: Option<Response>)
      requires Valid() && nodes.Keys <= outcomes.Keys && nodes.Keys <= plan.Keys
      requires (forall id :: id in nodes ==> Possible(outcomes[id])) && Received(req)
      modifies this`nodes
      ensures Valid()
      ensures res == None <==> leader.capacity == 0
      ensures leader.count != leader.capacity ==> res == Some(Response(ERROR, ERRMSG_NOT_AT_CAPACITY)) && nodes == old(nodes)
      ensures leader.count == leader.capacity && res.Some? ==>
        && nodes == Transacted(old(nodes), req, AllAnswered(Ids(), req, outcomes), outcomes, plan)
        && res == Some(if AllAnswered(Ids(), req, outcomes) then Response(SUCCESS, "") else Response(ERROR, ERRMSG_GENERIC_ERROR))
      ensures res == None ==> nodes == old(nodes)
    {
      hide Voted, Concluded, Linked, Ascending, Received, Forwardable;
      if leader.count != leader.capacity {
        return Some(Response(ERROR, ERRMSG_NOT_AT_CAPACITY));
      }
      var primary, crashed;
      ghost var p;
      primary, crashed, p := leader.GetPrimary(hash(req.key));
      if crashed {
        return None;
      }
      ReceivedForwardable(req, false);
      ReceivedForwardable(req, true);
      var abort := PhaseOne(primary, p, req, outcomes);
      var decision := Request(if abort then ABORT else COMMIT, req.key, req.value);
      PhaseTwo(primary, p, decision, plan);
      if abort {
        return Some(Response(ERROR, ERRMSG_GENERIC_ERROR));
      }
      return Some(Response(SUCCESS, ""));
    }

    /** tpcleader_handle_get, tpcleader.c:142-169: the first follower from the primary
        on that can be reached answers; None where a value overruns the response body
        or a leader of capacity 0 crashes. */
    method HandleGet(key: string, reach: set<int>) returns (res: Option<Response>, ghost p: nat, ghost c: nat)
      requires Valid()
      ensures leader.capacity == 0 ==> res == None
      ensures leader.count < leader.capacity ==> res == Some(Response(ERROR, ERRMSG_NOT_AT_CAPACITY))
      ensures leader.count == leader.capacity && (exists id :: id in nodes && id in reach) ==>
        && IsPrimary(leader.ring, hash(key), p) && FirstReachable(Ids(), reach, p, c) && Ids()[c] in nodes
        && Answers(nodes[Ids()[c]].contents, key, res)
      ensures leader.count == leader.capacity > 0 && (forall id :: id in nodes ==> id !in reach) ==>
        res == Some(Response(ERROR, ERRMSG_GENERIC_ERROR))
    {
      hide Dist, Linked, Ascending, Lookup, Answers, IsPrimary, FirstReachable;
      var primary, crashed;
      c := 0;
      primary, crashed, p := leader.GetPrimary(hash(key));
      if crashed {
        return None, p, c;
      }
      if primary == null {
        return Some(Response(ERROR, ERRMSG_NOT_AT_CAPACITY)), p, c;
      }
      var successor: Member := primary;
      ghost var ids, n := Ids(), |Ids()|;
      c := p;
      DistZero(p, n);
      while true
        invariant c < n && successor == leader.ring[c]
        invariant forall t :: 0 <= t < n && Dist(p, t, n) < Dist(p, c, n) ==> ids[t] !in reach
        decreases n - Dist(p, c, n)
      {
        var id := successor.id;
        assert id == ids[c] && id in ids;
        if id in reach {
          LookupAnswers(nodes[id].contents, key);
          ReachableFirst(ids, reach, p, c);
          return Lookup(nodes[id].contents, key), p, c;
        }
        DistSucc(p, c, n);
        DistInjective(p, c, n);
        successor := leader.GetSuccessor(successor, c);
        c := Succ(c, n);
        if successor == primary {
          SamePosition(c, p);
          NoneReached(ids, reach, p);
          return Some(Response(ERROR, ERRMSG_GENERIC_ERROR)), p, c;
        }
      }
    }
  }

  /** What a GET answers on a store that holds m; beyond the response body nothing is
      promised. */
  ghost predicate Answers(m: map<string, string>, key: string, res: Option<Response>) {
    && (|key| > KvStore.MAX_KEYLEN ==> res == Some(Response(ERROR, "error: improper key length")))
    && (|key| <= KvStore.MAX_KEYLEN && key !in m ==> res == Some(Response(ERROR, "error: no key")))
    && (|key| <= KvStore.MAX_KEYLEN && key in m && |m[key]| <= 40 ==> res == Some(Response(GETRESP, m[key])))
    && (|key| <= KvStore.MAX_KEYLEN && key in m && |m[key]| > 40 ==> res == None)
  }

  lemma LookupAnswers(m: map<string, string>, key: string)
    ensures Answers(m, key, Lookup(m, key))
  {
    hide Lookup;
    LookupCases(m, key);
  }

  /** Position c is the first one from p on, going round, whose follower is reachable. */
  ghost predicate FirstReachable(ids: seq<int>, reach: set<int>, p: nat, c: nat) {
    && p < |ids| && c < |ids| && ids[c] in reach
    && forall t :: 0 <= t < |ids| && Dist(p, t, |ids|) < Dist(p, c, |ids|) ==> ids[t] !in reach
  }

  lemma ReachableFirst(ids: seq<int>, reach: set<int>, p: nat, c: nat)
    requires p < |ids| && c < |ids| && ids[c] in reach
    requires forall t :: 0 <= t < |ids| && Dist(p, t, |ids|) < Dist(p, c, |ids|) ==> ids[t] !in reach
    ensures FirstReachable(ids, reach, p, c)
  {
  }

  lemma DistZero(p: nat, n: nat)
    requires p < n
    ensures Dist(p, p, n) == 0
  {
  }

  lemma DistInjective(p: nat, c: nat, n: nat)
    requires p < n && c < n
    ensures forall t :: 0 <= t < n && Dist(p, t, n) == Dist(p, c, n) ==> t == c
  {
  }

  lemma NoneReached(ids: seq<int>, reach: set<int>, p: nat)
    requires p < |ids| && forall t :: 0 <= t < |ids| && Dist(p, t, |ids|) < |ids| ==> ids[t] !in reach
    ensures forall id :: id in ids ==> id !in reach
  {
    forall id | id in ids ensures id !in reach {
      var t :| 0 <= t < |ids| && ids[t] == id;
      assert Dist(p, t, |ids|) < |ids|;
    }
  }

  lemma DecidedStep(node: Node, req: Request, fails: seq<bool>, used: nat)
    requires used <= |fails|
    ensures used < |fails| ==> Decided(Delivered(node, req, fails[used]), req, fails[used + 1..]) == Decided(node, req, fails[used..])
    ensures used == |fails| ==> Delivered(node, req, true) == Decided(node, req, fails[used..])
  {
    if used < |fails| {
      assert fails[used..][0] == fails[used] && fails[used..][1..] == fails[used + 1..];
    }
  }

  lemma ReachedNone(nodes: map<int, Node>, target: map<int, Node>, ids: seq<int>, p: nat)
    requires p < |ids| && nodes.Keys == target.Keys && forall t :: 0 <= t < |ids| ==> ids[t] in nodes
    ensures Reached(nodes, target, nodes, ids, p, Dist(p, p, |ids|))
  {
  }

  /** The followers fewer than j steps after p have answered. */
  ghost predicate Answered(outcomes: map<int, Outcome>, ids: seq<int>, p: nat, j: nat)
    requires p < |ids|
  {
    forall t :: 0 <= t < |ids| && Dist(p, t, |ids|) < j ==> ids[t] in outcomes && outcomes[ids[t]].answered
  }

  lemma AnsweredNone(outcomes: map<int, Outcome>, ids: seq<int>, p: nat)
    requires p < |ids|
    ensures Answered(outcomes, ids, p, Dist(p, p, |ids|))
  {
  }

  lemma AnsweredStep(outcomes: map<int, Outcome>, ids: seq<int>, p: nat, c: nat)
    requires p < |ids| && c < |ids|
    ensures Answered(outcomes, ids, p, Dist(p, c, |ids|) + 1) <==>
      Answered(outcomes, ids, p, Dist(p, c, |ids|)) && ids[c] in outcomes && outcomes[ids[c]].answered
  {
    var j := Dist(p, c, |ids|);
    if Answered(outcomes, ids, p, j) && ids[c] in outcomes && outcomes[ids[c]].answered {
      forall t | 0 <= t < |ids| && Dist(p, t, |ids|) < j + 1 ensures ids[t] in outcomes && outcomes[ids[t]].answered {
        assert Dist(p, t, |ids|) == j ==> t == c;
      }
    }
    if Answered(outcomes, ids, p, j + 1) {
      assert Dist(p, c, |ids|) < j + 1;
    }
  }

  lemma AnsweredAll(outcomes: map<int, Outcome>, ids: seq<int>, p: nat)
    requires p < |ids|
    ensures Answered(outcomes, ids, p, |ids|) <==> forall t :: 0 <= t < |ids| ==> ids[t] in outcomes && outcomes[ids[t]].answered
  {
    if Answered(outcomes, ids, p, |ids|) {
      forall t | 0 <= t < |ids| ensures ids[t] in outcomes && outcomes[ids[t]].answered {
        assert Dist(p, t, |ids|) < |ids|;
      }
    }
  }

  /** Phase one has polled the followers fewer than j steps after p. */
  ghost predicate Polling(before: map<int, Node>, nodes: map<int, Node>, req: Request, outcomes: map<int, Outcome>,
                          ids: seq<int>, p: nat, j: nat, abort: bool)
    requires p < |ids| && before.Keys <= outcomes.Keys
  {
    && Reached(before, Voted(before, req, outcomes), nodes, ids, p, j)
    && (abort <==> j > 0 && !(Sendable(req.kind) && Answered(outcomes, ids, p, j)))
  }

  lemma PollStart(nodes: map<int, Node>, req: Request, outcomes: map<int, Outcome>, ids: seq<int>, p: nat)
    requires p < |ids| && nodes.Keys <= outcomes.Keys && forall t :: 0 <= t < |ids| ==> ids[t] in nodes
    ensures Polling(nodes, nodes, req, outcomes, ids, p, Dist(p, p, |ids|), false)
  {
    ReachedNone(nodes, Voted(nodes, req, outcomes), ids, p);
  }

  lemma PollStep(before: map<int, Node>, nodes: map<int, Node>, req: Request, outcomes: map<int, Outcome>,
                 ids: seq<int>, p: nat, c: nat, abort: bool)
    requires p < |ids| && c < |ids| && before.Keys <= outcomes.Keys && Distinct(ids)
    requires Polling(before, nodes, req, outcomes, ids, p, Dist(p, c, |ids|), abort)
    ensures ids[c] in nodes && ids[c] in outcomes
    ensures var id := ids[c]; var after := if Sendable(req.kind) then nodes[id := Delivered(nodes[id], req, outcomes[id].delivered)] else nodes;
      Polling(before, after, req, outcomes, ids, p, Dist(p, c, |ids|) + 1, abort || !Sendable(req.kind) || !outcomes[id].answered)
  {
    hide Reached, Answered;
    var j, id := Dist(p, c, |ids|), ids[c];
    ReachedStep(before, Voted(before, req, outcomes), nodes, ids, p, c);
    AnsweredStep(outcomes, ids, p, c);
    if j == 0 { AnsweredNone(outcomes, ids, p); }
    assert !Sendable(req.kind) ==> nodes[id := Voted(before, req, outcomes)[id]] == nodes;
  }

  lemma PollEnd(before: map<int, Node>, nodes: map<int, Node>, req: Request, outcomes: map<int, Outcome>,
                ids: seq<int>, p: nat, abort: bool)
    requires p < |ids| && before.Keys <= outcomes.Keys && Polling(before, nodes, req, outcomes, ids, p, |ids|, abort)
    requires forall id :: id in nodes ==> id in ids
    ensures nodes == Voted(before, req, outcomes) && (abort <==> !AllAnswered(ids, req, outcomes))
  {
    hide Reached, Answered;
    ReachedAll(before, Voted(before, req, outcomes), nodes, ids, p);
    AnsweredAll(outcomes, ids, p);
  }

  /** Phase two has concluded with the followers before position c, and has failed
      used times with the one at c. */
  ghost predicate Retrying(before: map<int, Node>, nodes: map<int, Node>, req: Request, plan: map<int, seq<bool>>,
                           ids: seq<int>, p: nat, c: nat, used: nat)
    requires p < |ids| && c < |ids| && before.Keys <= plan.Keys
  {
    && ids[c] in nodes && ids[c] in before && nodes.Keys == before.Keys && used <= |plan[ids[c]]|
    && Reached(before, Concluded(before, req, plan), nodes[ids[c] := before[ids[c]]], ids, p, Dist(p, c, |ids|))
    && Decided(nodes[ids[c]], req, plan[ids[c]][used..]) == Decided(before[ids[c]], req, plan[ids[c]])
  }

  lemma RetryStart(before: map<int, Node>, nodes: map<int, Node>, req: Request, plan: map<int, seq<bool>>,
                   ids: seq<int>, p: nat, c: nat)
    requires p < |ids| && c < |ids| && before.Keys <= plan.Keys && Distinct(ids)
    requires Reached(before, Concluded(before, req, plan), nodes, ids, p, Dist(p, c, |ids|))
    ensures Retrying(before, nodes, req, plan, ids, p, c, 0)
  {
    hide Decided;
    ReachedStep(before, Concluded(before, req, plan), nodes, ids, p, c);
    assert nodes[ids[c] := before[ids[c]]] == nodes;
    assert plan[ids[c]][0..] == plan[ids[c]];
  }

  lemma RetryFailed(before: map<int, Node>, nodes: map<int, Node>, req: Request, plan: map<int, seq<bool>>,
                    ids: seq<int>, p: nat, c: nat, used: nat)
    requires p < |ids| && c < |ids| && before.Keys <= plan.Keys && Retrying(before, nodes, req, plan, ids, p, c, used)
    requires used < |plan[ids[c]]|
    ensures Retrying(before, nodes[ids[c] := Delivered(nodes[ids[c]], req, plan[ids[c]][used])], req, plan, ids, p, c, used + 1)
  {
    hide Reached, Dist, Delivered;
    var after := nodes[ids[c] := Delivered(nodes[ids[c]], req, plan[ids[c]][used])];
    DecidedStep(nodes[ids[c]], req, plan[ids[c]], used);
    assert after[ids[c] := before[ids[c]]] == nodes[ids[c] := before[ids[c]]];
    assert after.Keys == nodes.Keys;
  }

  lemma RetryDone(before: map<int, Node>, nodes: map<int, Node>, req: Request, plan: map<int, seq<bool>>,
                  ids: seq<int>, p: nat, c: nat, used: nat)
    requires p < |ids| && c < |ids| && before.Keys <= plan.Keys && Distinct(ids) && Retrying(before, nodes, req, plan, ids, p, c, used)
    requires used == |plan[ids[c]]|
    ensures Reached(before, Concluded(before, req, plan), nodes[ids[c] := Delivered(nodes[ids[c]], req, true)], ids, p, Dist(p, c, |ids|) + 1)
  {
    hide Reached, Dist, Delivered;
    var base := nodes[ids[c] := before[ids[c]]];
    DecidedStep(nodes[ids[c]], req, plan[ids[c]], used);
    ReachedStep(before, Concluded(before, req, plan), base, ids, p, c);
    assert nodes[ids[c] := Delivered(nodes[ids[c]], req, true)] == base[ids[c] := Concluded(before, req, plan)[ids[c]]];
  }

  // ---------- what a transaction guarantees ----------

  /** Failing exchanges that the follower handled all the same. */
  function Handlings(fails: seq<bool>): nat {
    if fails == [] then 0 else (if fails[0] then 1 else 0) + Handlings(fails[1..])
  }

  /** k copies of a record. */
  function Copies(r: Option<Record>, k: nat): (s: seq<Option<Record>>)
    ensures |s| == k && forall i :: 0 <= i < k ==> s[i] == r
  {
    seq(k, _ => r)
  }

  lemma {:induction false} DecidedLog(node: Node, req: Request, fails: seq<bool>)
    requires req.kind.COMMIT? || req.kind.ABORT?
    ensures Decided(node, req, fails) ==
      Node(node.contents, node.log + Copies(Some(RecordOf(req.kind, req.key, req.value)), 1 + Handlings(fails)))
    decreases |fails|
  {
    var r := Some(RecordOf(req.kind, req.key, req.value));
    if fails == [] {
      assert Copies(r, 1) == [r];
    } else {
      DecidedLog(Delivered(node, req, fails[0]), req, fails[1..]);
      var k := Handlings(fails[1..]);
      if fails[0] {
        assert node.log + [r] + Copies(r, 1 + k) == node.log + Copies(r, 2 + k);
      }
    }
  }

  /** Decision agreement: whatever fails, phase two appends the one decision, and
      nothing else, at least once at every follower; before it at most the request
      itself is logged, and the store changes exactly where the request was
      delivered. */
  lemma DecisionAgreement(nodes: map<int, Node>, req: Request, commit: bool, outcomes: map<int, Outcome>, plan: map<int, seq<bool>>, id: int)
    requires nodes.Keys <= outcomes.Keys && nodes.Keys <= plan.Keys && id in nodes
    ensures var after := Transacted(nodes, req, commit, outcomes, plan);
      var got := Sendable(req.kind) && outcomes[id].delivered;
      var decision := Some(Record(if commit then COMMIT else ABORT, "", ""));
      && id in after
      && after[id].contents == (if got then Apply(nodes[id].contents, req) else nodes[id].contents)
      && after[id].log == nodes[id].log + (if got then Logged(req) else []) + Copies(decision, 1 + Handlings(plan[id]))
  {
    var voted := Voted(nodes, req, outcomes);
    var decision := Request(if commit then COMMIT else ABORT, req.key, req.value);
    DecidedLog(voted[id], decision, plan[id]);
  }

  /** The records a transaction appends at a follower. */
  ghost function Appended(nodes: map<int, Node>, req: Request, commit: bool, outcomes: map<int, Outcome>, plan: map<int, seq<bool>>, id: int): seq<Option<Record>>
    requires nodes.Keys <= outcomes.Keys && nodes.Keys <= plan.Keys && id in nodes
  {
    var after := Transacted(nodes, req, commit, outcomes, plan);
    if id in after && |after[id].log| >= |nodes[id].log| then after[id].log[|nodes[id].log|..] else []
  }

  /** The opposite of the decision is among them exactly when the client's request was
      itself that opposite and was delivered: a transaction for a PUT or a DELETE never
      logs both. */
  lemma OtherDecisionIff(nodes: map<int, Node>, req: Request, commit: bool, outcomes: map<int, Outcome>, plan: map<int, seq<bool>>, id: int)
    requires nodes.Keys <= outcomes.Keys && nodes.Keys <= plan.Keys && id in nodes
    ensures var other := if commit then ABORT else COMMIT;
      Some(Record(other, "", "")) in Appended(nodes, req, commit, outcomes, plan, id) <==>
      req.kind == other && outcomes[id].delivered
  {
    hide Transacted, Copies, Logged;
    DecisionAgreement(nodes, req, commit, outcomes, plan, id);
    var decision := Some(Record(if commit then COMMIT else ABORT, "", ""));
    var got := Sendable(req.kind) && outcomes[id].delivered;
    var first, copies := if got then Logged(req) else [], Copies(decision, 1 + Handlings(plan[id]));
    assert Appended(nodes, req, commit, outcomes, plan, id) == first + copies;
    OtherInLog(req, commit, 1 + Handlings(plan[id]));
  }

  lemma OtherInLog(req: Request, commit: bool, k: nat)
    ensures var other := if commit then ABORT else COMMIT;
      && Some(Record(other, "", "")) !in Copies(Some(Record(if commit then COMMIT else ABORT, "", "")), k)
      && (Some(Record(other, "", "")) in Logged(req) <==> req.kind == other)
  {
  }

  /** A client's POST /abort (kvmessage.c:54-55, tpcleader.c:274-275) that everyone
      answers: phase one logs ABORT, phase two COMMIT. */
  lemma ClientAbortLogsBoth()
    ensures var req, outcomes := Request(ABORT, "", ""), map[1 := Outcome(true, true)];
      && Received(req) && AllAnswered([1], req, outcomes)
      && Transacted(map[1 := Node(map[], [])], req, true, outcomes, map[1 := []])[1].log
         == [Some(Record(ABORT, "", "")), Some(Record(COMMIT, "", ""))]
  {
    var req, outcomes := Request(ABORT, "", ""), map[1 := Outcome(true, true)];
    DecisionAgreement(map[1 := Node(map[], [])], req, true, outcomes, map[1 := []], 1);
    assert Copies(Some(Record(COMMIT, "", "")), 1) == [Some(Record(COMMIT, "", ""))];
    ReceivedIff(req);
  }

  /** All followers' stores denote the map c. */
  ghost predicate Agree(nodes: map<int, Node>, c: map<string, string>) {
    forall id :: id in nodes ==> nodes[id].contents == c
  }

  lemma AgreeAt(nodes: map<int, Node>, c: map<string, string>, id: int)
    requires Agree(nodes, c) && id in nodes
    ensures nodes[id].contents == c
  {
  }

  lemma Differ(nodes: map<int, Node>, x: int, y: int)
    requires x in nodes && y in nodes && nodes[x].contents != nodes[y].contents
    ensures forall d :: !Agree(nodes, d)
  {
  }

  /** Starting from equal stores, all stores are still equal after a transaction
      exactly when the request reached all followers, or none, or changes nothing:
      an abort undoes nothing. */
  lemma AgreementIff(nodes: map<int, Node>, c: map<string, string>, req: Request, commit: bool,
                     outcomes: map<int, Outcome>, plan: map<int, seq<bool>>)
    requires nodes.Keys <= outcomes.Keys && nodes.Keys <= plan.Keys && Agree(nodes, c) && nodes.Keys != {}
    ensures (exists d :: Agree(Transacted(nodes, req, commit, outcomes, plan), d)) <==>
      || !Sendable(req.kind)
      || Apply(c, req) == c
      || (forall id :: id in nodes ==> outcomes[id].delivered)
      || (forall id :: id in nodes ==> !outcomes[id].delivered)
  {
    var after := Transacted(nodes, req, commit, outcomes, plan);
    forall id | id in nodes
      ensures id in after && after[id].contents == if Sendable(req.kind) && outcomes[id].delivered then Apply(c, req) else c
    {
      DecisionAgreement(nodes, req, commit, outcomes, plan, id);
    }
    assert after.Keys == nodes.Keys;
    hide Transacted, Apply;
    if !Sendable(req.kind) || Apply(c, req) == c || forall id :: id in nodes ==> !outcomes[id].delivered {
      assert Agree(after, c);
    } else if forall id :: id in nodes ==> outcomes[id].delivered {
      assert Agree(after, Apply(c, req));
    } else {
      var x :| x in nodes && outcomes[x].delivered;
      var y :| y in nodes && !outcomes[y].delivered;
      Differ(after, x, y);
    }
  }

  /** A put that reaches one follower and not the other: the leader aborts, but the
      follower that was reached keeps the new value. */
  lemma AbortDoesNotRollBack()
    ensures var nodes := map[1 := Node(map[], []), 2 := Node(map[], [])];
      var req := Request(PUTREQ, "k", "v");
      var outcomes := map[1 := Outcome(true, true), 2 := Outcome(false, false)];
      var after := Transacted(nodes, req, false, outcomes, map[1 := [], 2 := []]);
      && Received(req) && !AllAnswered([1, 2], req, outcomes)
      && after[1].contents == map["k" := "v"] && after[2].contents == map[]
  {
    var ids := [1, 2];
    assert ids[1] == 2;
    ReceivedIff(Request(PUTREQ, "k", "v"));
  }

  /** A delete of a missing key: every follower votes no, and the leader still
      commits, because it never reads the votes. */
  lemma VotesAreIgnored()
    ensures var c: map<string, string> := map[];
      var req := Request(DELREQ, "k", "");
      var outcomes := map[1 := Outcome(true, true)];
      && Reply(c, req, "") == Some(Response(VOTE, ERRMSG_NO_KEY))
      && Received(req) && AllAnswered([1], req, outcomes)
      && Transacted(map[1 := Node(c, [])], req, true, outcomes, map[1 := []])[1].log[1] == Some(Record(COMMIT, "", ""))
  {
    ReceivedIff(Request(DELREQ, "k", ""));
    DecisionAgreement(map[1 := Node(map[], [])], Request(DELREQ, "k", ""), true, map[1 := Outcome(true, true)], map[1 := []], 1);
  }

  // ---------- when votes and aborts mean what they say ----------

  /** Every follower's answer to the request is a vote to commit. */
  ghost predicate AllVoteCommit(nodes: map<int, Node>, req: Request) {
    forall id, junk :: id in nodes ==> Reply(nodes[id].contents, req, junk) == Some(Response(VOTE, MSG_COMMIT))
  }

  lemma VotesAreVerdicts(nodes: map<int, Node>, req: Request)
    requires req.kind.PUTREQ? || req.kind.DELREQ?
    ensures AllVoteCommit(nodes, req) <==> forall id :: id in nodes ==> Verdict(nodes[id].contents, req) == 0
  {
    hide Reply, Verdict;
    forall id | id in nodes
      ensures Reply(nodes[id].contents, req, "") == Some(Response(VOTE, MSG_COMMIT)) <==> Verdict(nodes[id].contents, req) == 0
    {
      VoteIsEffect(nodes[id].contents, req, "");
    }
    forall id, junk | id in nodes && Verdict(nodes[id].contents, req) == 0
      ensures Reply(nodes[id].contents, req, junk) == Some(Response(VOTE, MSG_COMMIT))
    {
      VoteIsEffect(nodes[id].contents, req, junk);
    }
  }

  /** A transaction that committed was voted for by all exactly when it did not commit
      or the request is valid at every follower. */
  lemma CommitUnanimousIff(ids: seq<int>, nodes: map<int, Node>, req: Request, outcomes: map<int, Outcome>)
    requires req.kind.PUTREQ? || req.kind.DELREQ?
    ensures (AllAnswered(ids, req, outcomes) ==> AllVoteCommit(nodes, req)) <==>
      !AllAnswered(ids, req, outcomes) || forall id :: id in nodes ==> Verdict(nodes[id].contents, req) == 0
  {
    hide AllVoteCommit, AllAnswered, Verdict;
    VotesAreVerdicts(nodes, req);
  }

  /** What makes a PUT or DELETE valid on a store. */
  predicate ValidOn(c: map<string, string>, req: Request) {
    && 1 <= |req.key| <= KvStore.MAX_KEYLEN
    && (req.kind.PUTREQ? ==> |req.value| <= KvStore.MAX_VALLEN)
    && (req.kind.DELREQ? ==> req.key in c)
  }

  /** The followers have these ids; there is at least one. */
  ghost predicate OfIds(nodes: map<int, Node>, ids: seq<int>) {
    && ids != [] && (forall t :: 0 <= t < |ids| ==> ids[t] in nodes)
    && (forall id :: id in nodes ==> id in ids)
  }

  lemma AgreedVotes(nodes: map<int, Node>, c: map<string, string>, req: Request, x: int)
    requires (req.kind.PUTREQ? || req.kind.DELREQ?) && Agree(nodes, c) && x in nodes
    ensures AllVoteCommit(nodes, req) <==> ValidOn(c, req)
  {
    hide AllVoteCommit;
    VotesAreVerdicts(nodes, req);
    AgreeAt(nodes, c, x);
    assert Verdict(c, req) == 0 <==> ValidOn(c, req);
    forall id | id in nodes ensures nodes[id].contents == c { AgreeAt(nodes, c, id); }
  }

  /** On equal stores, whatever the network does, commits are unanimous exactly for
      valid requests; of those the leader can receive, exactly the deletes of missing
      keys break it. */
  lemma CommitsOnlyUnanimouslyIff(ids: seq<int>, nodes: map<int, Node>, c: map<string, string>, req: Request)
    requires (req.kind.PUTREQ? || req.kind.DELREQ?) && Agree(nodes, c) && OfIds(nodes, ids)
    ensures (forall outcomes :: AllAnswered(ids, req, outcomes) ==> AllVoteCommit(nodes, req)) <==> ValidOn(c, req)
    ensures Received(req) ==> (ValidOn(c, req) <==> (req.kind.DELREQ? ==> req.key in c))
  {
    AgreedVotes(nodes, c, req, ids[0]);
    hide AllVoteCommit, Verdict, Received;
    var answers := map id | id in ids :: Outcome(true, true);
    assert AllAnswered(ids, req, answers);
    if Received(req) { ReceivedForwardable(req, true); }
  }

  /** Every store is as it was. */
  ghost predicate Restored(before: map<int, Node>, after: map<int, Node>) {
    forall id :: id in before ==> id in after && after[id].contents == before[id].contents
  }

  /** An aborted transaction leaves every store as it was exactly when the request
      changes nothing wherever it was delivered. */
  lemma AbortRestoresIff(nodes: map<int, Node>, req: Request, outcomes: map<int, Outcome>, plan: map<int, seq<bool>>)
    requires nodes.Keys <= outcomes.Keys && nodes.Keys <= plan.Keys
    ensures Restored(nodes, Transacted(nodes, req, false, outcomes, plan)) <==>
      forall id :: id in nodes && Sendable(req.kind) && outcomes[id].delivered ==> Apply(nodes[id].contents, req) == nodes[id].contents
  {
    var after := Transacted(nodes, req, false, outcomes, plan);
    forall id | id in nodes
      ensures id in after
      ensures after[id].contents == if Sendable(req.kind) && outcomes[id].delivered then Apply(nodes[id].contents, req) else nodes[id].contents
    {
      DecisionAgreement(nodes, req, false, outcomes, plan, id);
    }
  }

  /** What the network may do to make the leader abort. */
  ghost predicate Aborting(ids: seq<int>, nodes: map<int, Node>, req: Request, outcomes: map<int, Outcome>) {
    && nodes.Keys <= outcomes.Keys && (forall id :: id in nodes ==> Possible(outcomes[id]))
    && !AllAnswered(ids, req, outcomes)
  }

  /** On equal stores every abort restores them exactly when the request changes nothing
      to begin with: it is no PUT or DELETE, it is refused, or it puts the value that is
      there. */
  lemma AbortsAlwaysRestoreIff(ids: seq<int>, nodes: map<int, Node>, c: map<string, string>, req: Request, plan: map<int, seq<bool>>)
    requires Agree(nodes, c) && OfIds(nodes, ids) && nodes.Keys <= plan.Keys
    ensures (forall outcomes :: Aborting(ids, nodes, req, outcomes) ==> Restored(nodes, Transacted(nodes, req, false, outcomes, plan))) <==>
      || !(req.kind.PUTREQ? || req.kind.DELREQ?)
      || Verdict(c, req) != 0
      || (req.kind.PUTREQ? && req.key in c && c[req.key] == req.value)
  {
    UnchangedIff(c, req);
    hide Apply, Verdict, Transacted, Restored;
    if Apply(c, req) == c {
      forall outcomes | Aborting(ids, nodes, req, outcomes) ensures Restored(nodes, Transacted(nodes, req, false, outcomes, plan)) {
        AbortRestoresIff(nodes, req, outcomes, plan);
      }
    } else {
      var lost := map id | id in nodes :: Outcome(true, false);
      assert ids[0] in nodes && lost[ids[0]].delivered && !lost[ids[0]].answered && Sendable(req.kind);
      AgreeAt(nodes, c, ids[0]);
      AbortRestoresIff(nodes, req, lost, plan);
      assert !Restored(nodes, Transacted(nodes, req, false, lost, plan));
      assert Aborting(ids, nodes, req, lost);
    }
  }

  // ---------- runs of transactions ----------

  /** A client request with the network's behaviour during its transaction. */
  datatype Transaction = Transaction(req: Request, outcomes: map<int, Outcome>, plan: map<int, seq<bool>>)

  function Fold(c: map<string, string>, ts: seq<Transaction>): map<string, string> {
    if ts == [] then c else Apply(Fold(c, ts[..|ts| - 1]), ts[|ts| - 1].req)
  }

  /** Replica agreement: after any run of transactions whose phase-one exchanges
      were all answered, every follower's store denotes the fold of the requests. */
  method Serve(cluster: Cluster, ts: seq<Transaction>, ghost c: map<string, string>)
    requires cluster.Valid() && cluster.leader.count == cluster.leader.capacity && Agree(cluster.nodes, c)
    requires forall i :: 0 <= i < |ts| ==>
      && cluster.nodes.Keys <= ts[i].outcomes.Keys && cluster.nodes.Keys <= ts[i].plan.Keys
      && Received(ts[i].req) && AllAnswered(cluster.Ids(), ts[i].req, ts[i].outcomes)
      && forall id :: id in cluster.nodes ==> Possible(ts[i].outcomes[id])
    modifies cluster`nodes
    ensures cluster.Valid() && Agree(cluster.nodes, Fold(c, ts)) && cluster.nodes.Keys == old(cluster.nodes.Keys)
  {
    hide Apply, Transacted, Linked, Ascending, Received;
    for i := 0 to |ts|
      invariant cluster.Valid() && cluster.nodes.Keys == old(cluster.nodes.Keys)
      invariant Agree(cluster.nodes, Fold(c, ts[..i]))
    {
      ghost var before := cluster.nodes;
      var res := cluster.HandleTpc(ts[i].req, ts[i].outcomes, ts[i].plan);
      AllDelivered(cluster.Ids(), before, ts[i].req, ts[i].outcomes);
      AgreeStep(before, Fold(c, ts[..i]), ts[i].req, true, ts[i].outcomes, ts[i].plan);
      assert ts[..i + 1][..i] == ts[..i];
    }
    assert ts[..|ts|] == ts;
  }

  lemma AllDelivered(ids: seq<int>, nodes: map<int, Node>, req: Request, outcomes: map<int, Outcome>)
    requires AllAnswered(ids, req, outcomes) && nodes.Keys <= outcomes.Keys
    requires forall id :: id in nodes ==> id in ids && Possible(outcomes[id])
    ensures forall id :: id in nodes ==> outcomes[id].delivered
  {
    forall id | id in nodes ensures outcomes[id].delivered {
      var t :| 0 <= t < |ids| && ids[t] == id;
    }
  }

  lemma AgreeStep(nodes: map<int, Node>, c: map<string, string>, req: Request, commit: bool,
                  outcomes: map<int, Outcome>, plan: map<int, seq<bool>>)
    requires nodes.Keys <= outcomes.Keys && nodes.Keys <= plan.Keys && Agree(nodes, c) && Sendable(req.kind)
    requires forall id :: id in nodes ==> outcomes[id].delivered
    ensures Agree(Transacted(nodes, req, commit, outcomes, plan), Apply(c, req))
    ensures Transacted(nodes, req, commit, outcomes, plan).Keys == nodes.Keys
  {
    hide Apply;
    forall id | id in nodes ensures Transacted(nodes, req, commit, outcomes, plan)[id].contents == Apply(c, req) {
      DecisionAgreement(nodes, req, commit, outcomes, plan, id);
    }
  }

  /** ... and a GET then returns that map's answer, whichever follower is reachable,
      exactly when the key has no value or its value fits a response body. */
  method ServeThenGet(cluster: Cluster, ts: seq<Transaction>, key: string, reach: set<int>, ghost c: map<string, string>)
    returns (res: Option<Response>)
    requires cluster.Valid() && cluster.leader.count == cluster.leader.capacity && Agree(cluster.nodes, c)
    requires forall i :: 0 <= i < |ts| ==>
      && cluster.nodes.Keys <= ts[i].outcomes.Keys && cluster.nodes.Keys <= ts[i].plan.Keys
      && Received(ts[i].req) && AllAnswered(cluster.Ids(), ts[i].req, ts[i].outcomes)
      && forall id :: id in cluster.nodes ==> Possible(ts[i].outcomes[id])
    requires exists id :: id in cluster.nodes && id in reach
    modifies cluster`nodes
    ensures var m := Fold(c, ts);
      && (|key| > KvStore.MAX_KEYLEN ==> res == Some(Response(ERROR, "error: improper key length")))
      && (|key| <= KvStore.MAX_KEYLEN && key !in m ==> res == Some(Response(ERROR, "error: no key")))
      && (|key| <= KvStore.MAX_KEYLEN && key in m && |m[key]| <= 40 ==> res == Some(Response(GETRESP, m[key])))
      && (|key| <= KvStore.MAX_KEYLEN && key in m && |m[key]| > 40 ==> res == None)
  {
    hide Apply, Fold, Linked, Ascending, Received;
    Serve(cluster, ts, c);
    ghost var p, at;
    res, p, at := cluster.HandleGet(key, reach);
    AgreeAt(cluster.nodes, Fold(c, ts), cluster.Ids()[at]);
  }
}
