/** A follower's request handling, 2PCKVStore/tpcfollower.c:61-178, over its store
    and its log, with no file error. */
module Follower {
  import opened Basics
  import opened KvStore
  import opened TpcLog

  const MSG_COMMIT := "commit"
  const ERRMSG_NO_KEY := "error: no key"
  const ERRMSG_KEY_LEN := "error: improper key length"
  const ERRMSG_VAL_LEN := "error: value too long"
  const ERRMSG_NOT_IMPLEMENTED := "error: not implemented"
  const ERRMSG_GENERIC_ERROR := "error: unable to process request"
  const ERRMSG_NOT_AT_CAPACITY := "error: follower_capacity not yet full"

  /** Room in a response body, kvconstants.h:34, kvmessage.h:15-18. */
  const KVRES_BODY_MAX_SIZE := 40

  datatype Request = Request(kind: MsgType, key: string, value: string)
  datatype Response = Response(kind: MsgType, body: string)

  /** What a follower durably holds. */
  datatype Node = Node(contents: map<string, string>, log: seq<Option<Record>>)

  /** GETMSG of kvconstants.h:72-76. */
  function GetMsg(error: int): string {
    if error == ERR_KEYLEN then ERRMSG_KEY_LEN
    else if error == ERR_VALLEN then ERRMSG_VAL_LEN
    else if error == ERR_NOKEY then ERRMSG_NO_KEY
    else ERRMSG_GENERIC_ERROR
  }

  /** Result of tpcfollower_put and tpcfollower_del on a store with these contents. */
  function Verdict(contents: map<string, string>, req: Request): int {
    if |req.key| > MAX_KEYLEN || |req.key| == 0 then ERR_KEYLEN
    else if req.kind.PUTREQ? then (if |req.value| > MAX_VALLEN then ERR_VALLEN else 0)
    else if req.key in contents then 0 else ERR_NOKEY
  }

  /** The contents after a follower has handled a request: a PUT or DELETE takes
      effect at once, in phase one; COMMIT and ABORT change nothing. */
  function Apply(contents: map<string, string>, req: Request): map<string, string> {
    if !(req.kind.PUTREQ? || req.kind.DELREQ?) || Verdict(contents, req) != 0 then contents
    else if req.kind.PUTREQ? then contents[req.key := req.value]
    else contents - {req.key}
  }

  /** The records a request leaves in the log. */
  function Logged(req: Request): seq<Option<Record>> {
    if Loggable(req.kind) then [Some(RecordOf(req.kind, req.key, req.value))] else []
  }

  function Handled(node: Node, req: Request): Node {
    Node(Apply(node.contents, req), node.log + Logged(req))
  }

  /** The answer to a GET; None where copying the value would overrun the response
      body, after which nothing is promised (tpcfollower.c:135). */
  function Lookup(contents: map<string, string>, key: string): Option<Response> {
    if |key| > MAX_KEYLEN then Some(Response(ERROR, ERRMSG_KEY_LEN))
    else if key !in contents then Some(Response(ERROR, ERRMSG_NO_KEY))
    else Copied(GETRESP, contents[key])
  }

  /** strcpy of text into a response body. */
  function Copied(kind: MsgType, text: string): Option<Response> {
    if |text| <= KVRES_BODY_MAX_SIZE then Some(Response(kind, text)) else None
  }

  /** A value that PUT accepts can be read back exactly when it fits a response
      body. */
  lemma ReadBackIff(contents: map<string, string>, key: string, value: string)
    requires Verdict(contents, Request(PUTREQ, key, value)) == 0
    ensures Lookup(Apply(contents, Request(PUTREQ, key, value)), key) == Some(Response(GETRESP, value))
      <==> |value| <= KVRES_BODY_MAX_SIZE
  {
  }

  /** A PUT of 41 characters is accepted, and reading it back overruns the body. */
  lemma LongValueOverruns()
    ensures var value := seq(41, _ => 'v'); var req := Request(PUTREQ, "k", value);
      Verdict(map[], req) == 0 && Lookup(Apply(map[], req), "k") == None
  {
  }

  /** The response; junk is what the uninitialised body held. */
  function Reply(contents: map<string, string>, req: Request, junk: string): Option<Response> {
    match req.kind
    case GETREQ => Lookup(contents, req.key)
    case PUTREQ => Some(Response(VOTE, Vote(contents, req)))
    case DELREQ => Some(Response(VOTE, Vote(contents, req)))
    case COMMIT => Some(Response(ACK, junk))
    case ABORT => Some(Response(ACK, junk))
    case _ => Some(Response(ERROR, ERRMSG_NOT_IMPLEMENTED))
  }

  function Vote(contents: map<string, string>, req: Request): string {
    if Verdict(contents, req) == 0 then MSG_COMMIT else GetMsg(Verdict(contents, req))
  }

  /** A follower votes commit exactly when the request has taken effect. */
  lemma VoteIsEffect(contents: map<string, string>, req: Request, junk: string)
    requires req.kind.PUTREQ? || req.kind.DELREQ?
    ensures Reply(contents, req, junk) == Some(Response(VOTE, MSG_COMMIT)) <==> Verdict(contents, req) == 0
    ensures Verdict(contents, req) == 0 && req.kind.PUTREQ? ==>
      req.key in Apply(contents, req) && Apply(contents, req)[req.key] == req.value
    ensures Verdict(contents, req) == 0 && req.kind.DELREQ? ==> req.key !in Apply(contents, req)
    ensures Verdict(contents, req) != 0 ==> Apply(contents, req) == contents
  {
    var v := Verdict(contents, req);
    assert MSG_COMMIT[0] == 'c' && ERRMSG_KEY_LEN[0] == 'e' && ERRMSG_VAL_LEN[0] == 'e' && ERRMSG_NO_KEY[0] == 'e';
  }

  /** The reply to every request that is no GET, and what it does, case by case. */
  lemma ReplyCases(contents: map<string, string>, req: Request, junk: string)
    ensures var r, after, bad := Reply(contents, req, junk), Apply(contents, req), |req.key| == 0 || |req.key| > MAX_KEYLEN;
      && (req.kind.PUTREQ? && bad ==> r == Some(Response(VOTE, "error: improper key length")) && after == contents)
      && (req.kind.PUTREQ? && !bad && |req.value| > MAX_VALLEN ==> r == Some(Response(VOTE, "error: value too long")) && after == contents)
      && (req.kind.PUTREQ? && !bad && |req.value| <= MAX_VALLEN ==> r == Some(Response(VOTE, "commit")) && after == contents[req.key := req.value])
      && (req.kind.DELREQ? && bad ==> r == Some(Response(VOTE, "error: improper key length")) && after == contents)
      && (req.kind.DELREQ? && !bad && req.key !in contents ==> r == Some(Response(VOTE, "error: no key")) && after == contents)
      && (req.kind.DELREQ? && !bad && req.key in contents ==> r == Some(Response(VOTE, "commit")) && after == contents - {req.key})
      && (req.kind.COMMIT? || req.kind.ABORT? ==> r == Some(Response(ACK, junk)) && after == contents)
      && (req.kind.REGISTER? || req.kind.EMPTY? ==> r == Some(Response(ERROR, "error: not implemented")) && after == contents)
  {
  }

  /** The records a request leaves, case by case. */
  lemma LoggedCases(key: string, value: string)
    ensures Logged(Request(PUTREQ, key, value)) == [Some(Record(PUTREQ, key, value))]
    ensures Logged(Request(DELREQ, key, value)) == [Some(Record(DELREQ, key, ""))]
    ensures Logged(Request(COMMIT, key, value)) == [Some(Record(COMMIT, "", ""))]
    ensures Logged(Request(ABORT, key, value)) == [Some(Record(ABORT, "", ""))]
    ensures Logged(Request(GETREQ, key, value)) == [] == Logged(Request(REGISTER, key, value))
  {
  }

  /** The answer to a GET, case by case. */
  lemma LookupCases(m: map<string, string>, key: string)
    ensures |key| > MAX_KEYLEN ==> Lookup(m, key) == Some(Response(ERROR, "error: improper key length"))
    ensures |key| <= MAX_KEYLEN && key !in m ==> Lookup(m, key) == Some(Response(ERROR, "error: no key"))
    ensures |key| <= MAX_KEYLEN && key in m && |m[key]| <= 40 ==> Lookup(m, key) == Some(Response(GETRESP, m[key]))
    ensures |key| <= MAX_KEYLEN && key in m && |m[key]| > 40 ==> Lookup(m, key) == None
  {
  }

  /** When a request changes nothing: it is no PUT or DELETE, it is refused, or it
      puts the value that is there. */
  lemma UnchangedIff(contents: map<string, string>, req: Request)
    ensures Apply(contents, req) == contents <==>
      || !(req.kind.PUTREQ? || req.kind.DELREQ?)
      || Verdict(contents, req) != 0
      || (req.kind.PUTREQ? && req.key in contents && contents[req.key] == req.value)
  {
    if req.kind.DELREQ? && Verdict(contents, req) == 0 {
      assert req.key in contents && req.key !in contents - {req.key};
    }
    if req.kind.PUTREQ? && Verdict(contents, req) == 0 {
      assert req.key in contents[req.key := req.value] && contents[req.key := req.value][req.key] == req.value;
    }
  }

  class Server {
    const store: Store
    const log: Log

    ghost predicate Valid()
      reads this, store, log
    {
      store.Valid() && store.present && log.Valid()
    }

    ghost function View(): Node
      reads this, store, log
    {
      Node(store.contents, log.records)
    }

    constructor (hash: string -> int)
      ensures Valid() && View() == Node(map[], []) && fresh(store) && fresh(log)
    {
      store := new Store(hash);
      log := new Log();
    }

    /** tpcfollower_put, tpcfollower.c:84-90, with its check. */
    method Put(key: string, value: string) returns (ret: int)
      requires Valid() && IsText(key) && IsText(value)
      modifies store
      ensures Valid() && ret == Verdict(old(store.contents), Request(PUTREQ, key, value))
      ensures store.contents == Apply(old(store.contents), Request(PUTREQ, key, value))
    {
      if |key| > MAX_KEYLEN || |key| == 0 {
        return ERR_KEYLEN;
      }
      if |value| > MAX_VALLEN {
        return ERR_VALLEN;
      }
      ret := store.PutCheck(key, value);
      if ret < 0 {
        return;
      }
      ret := store.Put(key, value);
    }

    /** tpcfollower_del, tpcfollower.c:105-111, with its check. */
    method Del(key: string) returns (ret: int)
      requires Valid() && IsText(key)
      modifies store
      ensures Valid() && ret == Verdict(old(store.contents), Request(DELREQ, key, ""))
      ensures store.contents == Apply(old(store.contents), Request(DELREQ, key, ""))
    {
      if |key| > MAX_KEYLEN || |key| == 0 {
        return ERR_KEYLEN;
      }
      ret := store.DelCheck(key);
      if ret < 0 {
        return;
      }
      ret := store.Del(key);
    }

    /** tpcfollower_handle_tpc, tpcfollower.c:120-178. */
    method HandleTpc(req: Request, rest: string, junk: string) returns (res: Option<Response>)
      requires Valid() && IsText(req.key) && IsText(req.value) && |rest| == MAX_LOGENTRY + 2
      modifies store, log
      ensures Valid() && View() == Handled(old(View()), req)
      ensures res == Reply(old(store.contents), req, junk)
      ensures var m, key := old(store.contents), req.key; req.kind.GETREQ? ==>
        && (|key| > MAX_KEYLEN ==> res == Some(Response(ERROR, "error: improper key length")))
        && (|key| <= MAX_KEYLEN && key !in m ==> res == Some(Response(ERROR, "error: no key")))
        && (|key| <= MAX_KEYLEN && key in m && |m[key]| <= 40 ==> res == Some(Response(GETRESP, m[key])))
        && (|key| <= MAX_KEYLEN && key in m && |m[key]| > 40 ==> res == None)
    {
      res := Some(Response(EMPTY, junk));
      if req.kind.GETREQ? {
        var ret, value := store.Get(req.key);
        if ret < 0 {
          res := Some(Response(ERROR, GetMsg(ret)));
        } else {
          res := Copied(GETRESP, value);
        }
      } else if req.kind.PUTREQ? {
        var ret := log.Append(req.kind, req.key, req.value, rest);
        if ret < 0 {
          res := Some(Response(VOTE, GetMsg(ret)));
        } else {
          ret := Put(req.key, req.value);
          res := Some(Response(VOTE, if ret < 0 then GetMsg(ret) else MSG_COMMIT));
        }
      } else if req.kind.DELREQ? {
        var ret := log.Append(req.kind, req.key, req.value, rest);
        if ret < 0 {
          res := Some(Response(VOTE, GetMsg(ret)));
        } else {
          ret := Del(req.key);
          res := Some(Response(VOTE, if ret < 0 then GetMsg(ret) else MSG_COMMIT));
        }
      } else if req.kind.COMMIT? || req.kind.ABORT? {
        var ret := log.Append(req.kind, req.key, req.value, rest);
        if ret == 0 {
          res := Some(Response(ACK, junk));
        }
      } else {
        res := Some(Response(ERROR, ERRMSG_NOT_IMPLEMENTED));
      }
    }
  }
}
