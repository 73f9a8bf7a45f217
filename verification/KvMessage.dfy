/** Requests on the wire: 2PCKVStore/kvmessage.c, liburl.c and libhttp.c. */
module KvMessage {
  import opened Basics
  import opened KvStore
  import opened TpcLog
  import opened Follower

  const PATH_MAX_SIZE := 8
  const HTTP_MSG_MAX_SIZE := PATH_MAX_SIZE + MAX_KEYLEN + MAX_VALLEN + KVRES_BODY_MAX_SIZE + 20
  const FULLMSG_MAX_SIZE := HTTP_MSG_MAX_SIZE + 32
  const METHOD_MAX_SIZE := 6

  datatype Method = INVALID | GET | POST | PUT | DELETE

  datatype Params = Params(path: string, key: string, val: string)

  // ---------- finding characters ----------

  /** Position of the first c in s, or the length of s (strchr). */
  function IndexOf(s: string, c: char): (i: nat)
    ensures i <= |s| && (i < |s| ==> s[i] == c)
  {
    if s == [] || s[0] == c then 0 else 1 + IndexOf(s[1..], c)
  }

  lemma {:induction false} IndexOfNone(s: string, c: char)
    requires c !in s
    ensures IndexOf(s, c) == |s|
    decreases |s|
  {
    if s != [] { IndexOfNone(s[1..], c); }
  }

  /** IndexOf is the first occurrence. */
  lemma {:induction false} IndexOfLeast(s: string, c: char, i: nat)
    requires i < IndexOf(s, c)
    ensures i < |s| && s[i] != c
    decreases |s|
  {
    if i > 0 { IndexOfLeast(s[1..], c, i - 1); }
  }

  lemma {:induction false} IndexOfFirst(a: string, c: char, b: string)
    requires c !in a
    ensures IndexOf(a + [c] + b, c) == |a|
    decreases |a|
  {
    var s := a + [c] + b;
    if a != [] {
      assert s[0] == a[0] && a[0] in a && s[1..] == a[1..] + [c] + b;
      IndexOfFirst(a[1..], c, b);
    }
  }

  // ---------- urls ----------

  /** url_encode, liburl.c:90-104. */
  function Encode(p: Params): string {
    "/" + p.path + "?key=" + p.key + "&val=" + p.val
  }

  /** A name matches a parameter when strncmp over the name's length finds no
      difference: exactly when it is a prefix of it (liburl.c:22-34). */
  function Store(p: Params, name: string, data: string): Params {
    if name <= "key" then p.(key := data[..Min(|data|, MAX_KEYLEN)])
    else if name <= "val" then p.(val := data[..Min(|data|, MAX_VALLEN)])
    else p
  }

  /** The parameter loop of url_decode, liburl.c:63-84, on the text after '?'. */
  function DecodeParams(url: string, p: Params): Params
    decreases |url|
  {
    var eq, amp := IndexOf(url, '='), IndexOf(url, '&');
    if eq == |url| then p
    else
      var p' := if amp < eq then p else Store(p, url[..eq], url[eq + 1..amp]);
      if amp == |url| then p' else DecodeParams(url[amp + 1..], p')
  }

  /** A name that reaches past the next '&' matches neither parameter. */
  lemma NoMatchAcrossAmpersand(name: string)
    requires '&' in name
    ensures !(name <= "key") && !(name <= "val")
  {
    var i :| 0 <= i < |name| && name[i] == '&';
  }

  function Path(url: string): string
    requires url != [] && url[0] == '/'
  {
    url[1..1 + Min(IndexOf(url, '?') - 1, PATH_MAX_SIZE)]
  }

  function Decode(url: string): Params
    requires url != [] && url[0] == '/'
  {
    var q := IndexOf(url, '?');
    var p := Params(Path(url), "", "");
    if q == |url| then p else DecodeParams(url[q + 1..], p)
  }

  lemma DecodeStep(url: string, pos: nat, p: Params)
    requires pos <= |url|
    ensures var rest := url[pos..]; var eq, amp := IndexOf(rest, '='), IndexOf(rest, '&');
      DecodeParams(rest, p) ==
      if eq == |rest| then p
      else
        var p' := if amp < eq then p else Store(p, rest[..eq], rest[eq + 1..amp]);
        if amp == |rest| then p' else DecodeParams(url[pos + amp + 1..], p')
  {
    hide IndexOf, Store;
    var rest := url[pos..];
    var amp := IndexOf(rest, '&');
    if amp < |rest| { assert rest[amp + 1..] == url[pos + amp + 1..]; }
  }

  /** url_decode, liburl.c:36-88. */
  method UrlDecode(url: string) returns (p: Params)
    requires url != [] && url[0] == '/'
    ensures p == Decode(url)
  {
    hide IndexOf, Store, DecodeParams;
    var readEnd := IndexOf(url, '?');
    var readSize := Min(readEnd - 1, PATH_MAX_SIZE);
    p := Params(url[1..1 + readSize], "", "");
    if readEnd == |url| {
      return;
    }
    var pos := readEnd + 1;
    while readEnd < |url|
      invariant readEnd <= |url|
      invariant readEnd < |url| ==> pos == readEnd + 1 && DecodeParams(url[pos..], p) == Decode(url)
      invariant readEnd == |url| ==> p == Decode(url)
      decreases |url| - readEnd
    {
      var rest := url[pos..];
      DecodeStep(url, pos, p);
      var keyEnd := pos + IndexOf(rest, '=');
      if keyEnd == |url| {
        break;
      }
      readEnd := pos + IndexOf(rest, '&');
      p := StoreParam(rest, keyEnd - pos, readEnd - pos, p);
      pos := readEnd + 1;
    }
  }

  /** get_param_ptr and the copy into its buffer, liburl.c:22-34, 71-81. */
  method StoreParam(rest: string, eq: nat, amp: nat, p: Params) returns (p': Params)
    requires eq == IndexOf(rest, '=') < |rest| && amp == IndexOf(rest, '&')
    ensures p' == if amp < eq then p else Store(p, rest[..eq], rest[eq + 1..amp])
  {
    hide IndexOf;
    var name := rest[..eq];
    p' := p;
    if amp < eq {
      assert name[amp] == '&';
      NoMatchAcrossAmpersand(name);
    }
    if name <= "key" {
      var n := Min(amp - eq - 1, MAX_KEYLEN);
      assert rest[eq + 1..amp][..n] == rest[eq + 1..eq + 1 + n];
      p' := p.(key := rest[eq + 1..eq + 1 + n]);
    } else if name <= "val" {
      var n := Min(amp - eq - 1, MAX_VALLEN);
      assert rest[eq + 1..amp][..n] == rest[eq + 1..eq + 1 + n];
      p' := p.(val := rest[eq + 1..eq + 1 + n]);
    }
  }

  /** Characters that the wire format cannot carry. */
  ghost predicate Clean(s: string) {
    '&' !in s && ' ' !in s && '\n' !in s && '\0' !in s
  }

  lemma ConcatParts(a: string, c: char, b: string)
    ensures var s := a + [c] + b; s[|a|] == c && s[..|a|] == a && s[|a| + 1..] == b
  {
  }

  /** The last parameter of a url. */
  lemma DecodeLast(name: string, data: string, p: Params)
    requires '=' !in name && '&' !in name && '&' !in data
    ensures DecodeParams(name + ['='] + data, p) == Store(p, name, data)
  {
    hide Store, IndexOf;
    var u := name + ['='] + data;
    IndexOfFirst(name, '=', data);
    IndexOfNone(u, '&');
    ConcatParts(name, '=', data);
    assert u[|name| + 1..|u|] == data;
  }

  /** Which names set which field: strncmp compares only as many characters as the name
      has, so every prefix of "key" or "val" will do, and the empty name is the key. */
  lemma NameMatches(name: string, data: string, p: Params)
    requires '=' !in name && '&' !in name && '&' !in data
    ensures var after := DecodeParams(name + ['='] + data, p);
      && (name in {"", "k", "ke", "key"} ==> after == p.(key := if |data| <= MAX_KEYLEN then data else data[..MAX_KEYLEN]))
      && (name in {"v", "va", "val"} ==> after == p.(val := if |data| <= MAX_VALLEN then data else data[..MAX_VALLEN]))
      && (name !in {"", "k", "ke", "key", "v", "va", "val"} ==> after == p)
  {
    hide DecodeParams;
    DecodeLast(name, data, p);
    PrefixOf(name, "key");
    PrefixOf(name, "val");
    assert "key"[..0] == "" && "key"[..1] == "k" && "key"[..2] == "ke" && "key"[..3] == "key";
    assert "val"[..0] == "" && "val"[..1] == "v" && "val"[..2] == "va" && "val"[..3] == "val";
  }

  lemma PrefixOf(name: string, full: string)
    requires |full| == 3
    ensures name <= full <==> name == full[..0] || name == full[..1] || name == full[..2] || name == full[..3]
  {
  }

  /** A stretch without '=' is passed over, and the rest without '=' is ignored. */
  lemma NoEquals(part: string, rest: string, p: Params)
    requires '=' !in part && '&' !in part
    ensures DecodeParams(part, p) == p
    ensures DecodeParams(part + ['&'] + rest, p) == DecodeParams(rest, p)
  {
    hide Store, IndexOf;
    var u := part + ['&'] + rest;
    IndexOfNone(part, '=');
    IndexOfFirst(part, '&', rest);
    ConcatParts(part, '&', rest);
    if '=' in rest {
      assert |part| < |u| && IndexOf(u, '&') == |part|;
      NoneBefore(u, '=', |part|);
      EqualsSeen(part, rest);
    } else {
      IndexOfNone(u, '=');
      IndexOfNone(rest, '=');
    }
  }

  lemma EqualsSeen(part: string, rest: string)
    requires '=' !in part && '=' in rest
    ensures |part| < IndexOf(part + ['&'] + rest, '=') < |part| + 1 + |rest|
  {
    hide IndexOf;
    var u, k := part + ['&'] + rest, |part| + 1;
    assert u[..k] == part + ['&'];
    NoneBefore(u, '=', k);
    var i :| 0 <= i < |rest| && rest[i] == '=';
    Shifted(part, rest, i);
    NotAfter(u, '=', k + i);
  }

  lemma Shifted(part: string, rest: string, i: nat)
    requires i < |rest|
    ensures (part + ['&'] + rest)[|part| + 1 + i] == rest[i]
  {
  }

  /** At most eight characters of the path count. */
  lemma PathIsCut(path: string, rest: string)
    requires '?' !in path
    ensures Path("/" + path) == Path("/" + path + ['?'] + rest) == if |path| <= 8 then path else path[..8]
  {
    hide IndexOf;
    IndexOfNone("/" + path, '?');
    IndexOfFirst("/" + path, '?', rest);
  }

  /** A parameter followed by others. */
  lemma DecodeNext(name: string, data: string, rest: string, p: Params)
    requires '=' !in name && '&' !in name && '&' !in data
    ensures DecodeParams(name + ['='] + data + ['&'] + rest, p) == DecodeParams(rest, Store(p, name, data))
  {
    hide Store, IndexOf;
    var u := name + ['='] + data;
    var w := u + ['&'] + rest;
    assert '&' !in u;
    IndexOfFirst(u, '&', rest);
    ConcatParts(u, '&', rest);
    assert w == name + ['='] + (data + ['&'] + rest);
    IndexOfFirst(name, '=', data + ['&'] + rest);
    assert w[..|name|] == name;
    assert w[|name| + 1..|u|] == data;
  }

  lemma StoreBoth(p: Params)
    requires |p.key| <= MAX_KEYLEN && |p.val| <= MAX_VALLEN
    ensures Store(Store(Params(p.path, "", ""), "key", p.key), "val", p.val) == p
  {
    assert "val"[0] == 'v' && "key"[0] == 'k';
  }

  /** Decoding what was encoded: '=' and '?' are allowed in key and value. */
  lemma UrlRoundTrip(p: Params)
    requires '?' !in p.path && |p.path| <= PATH_MAX_SIZE
    requires '&' !in p.key && '&' !in p.val && |p.key| <= MAX_KEYLEN && |p.val| <= MAX_VALLEN
    ensures Encode(p) != [] && Encode(p)[0] == '/' && Decode(Encode(p)) == p
  {
    hide Store, IndexOf, DecodeParams;
    var front, last := "/" + p.path, "val" + ['='] + p.val;
    var tail := "key" + ['='] + p.key + ['&'] + last;
    assert Encode(p) == front + ['?'] + tail;
    IndexOfFirst(front, '?', tail);
    ConcatParts(front, '?', tail);
    assert front[1..] == p.path && Encode(p)[1..|front|] == front[1..];
    var p0 := Params(p.path, "", "");
    DecodeNext("key", p.key, last, p0);
    DecodeLast("val", p.val, Store(p0, "key", p.key));
    StoreBoth(p);
  }

  // ---------- request lines ----------

  function MethodName(m: Method): Option<string> {
    match m
    case GET => Some("GET")
    case POST => Some("POST")
    case PUT => Some("PUT")
    case DELETE => Some("DELETE")
    case INVALID => None
  }

  /** http_method_from_string, libhttp.c:146-156. */
  function MethodFrom(s: string): Method {
    if s == "GET" then GET
    else if s == "POST" then POST
    else if s == "PUT" then PUT
    else if s == "DELETE" then DELETE
    else INVALID
  }

  /** The message http_outbound_init_request and http_outbound_end_headers build,
      libhttp.c:208-232: a request line as in section 3.1.1 of RFC 7230. */
  function Message(m: string, url: string): string {
    m + " " + url + " HTTP/1.1\r\n\r\n"
  }

  /** End of the path: the first space or newline; None at a NUL or the end. */
  function PathEnd(s: string): Option<nat> {
    if s == [] || s[0] == '\0' then None
    else if s[0] == ' ' || s[0] == '\n' then Some(0)
    else match PathEnd(s[1..]) case None => None case Some(n) => Some(n + 1)
  }

  lemma {:induction false} PathEndBound(s: string)
    ensures PathEnd(s).Some? ==> PathEnd(s).value < |s|
    decreases |s|
  {
    if s != [] && s[0] != '\0' && s[0] != ' ' && s[0] != '\n' { PathEndBound(s[1..]); }
  }

  /** http_request_receive, libhttp.c:21-65, on the bytes of one read; strchr does not
      look past a NUL. */
  function Receive(msg: string): Option<(Method, string)> {
    var sp := IndexOf(msg, ' ');
    if msg == [] || sp == |msg| || IndexOf(msg, '\0') < sp then None
    else
      var m := MethodFrom(msg[..Min(sp, METHOD_MAX_SIZE)]);
      var rest := msg[sp + 1..];
      if m.INVALID? || rest == [] || rest[0] != '/' then None
      else
        match PathEnd(rest)
        case None => None
        case Some(n) =>
          PathEndBound(rest);
          if Min(n, HTTP_MSG_MAX_SIZE) == 0 then None else Some((m, rest[..Min(n, HTTP_MSG_MAX_SIZE)]))
  }

  /** http_request_receive, libhttp.c:21-65: the parsing loop. */
  method HttpReceive(msg: string) returns (r: Option<(Method, string)>)
    ensures r == Receive(msg)
  {
    hide IndexOf, MethodFrom;
    var sp := IndexOf(msg, ' ');
    if msg == [] || sp == |msg| || IndexOf(msg, '\0') < sp {
      return None;
    }
    var m := MethodFrom(msg[..Min(sp, METHOD_MAX_SIZE)]);
    if m.INVALID? || sp + 1 == |msg| || msg[sp + 1] != '/' {
      return None;
    }
    var rest := msg[sp + 1..];
    var readEnd := 0;
    while readEnd < |rest| && rest[readEnd] != ' ' && rest[readEnd] != '\n'
      invariant 0 <= readEnd <= |rest|
      invariant PathEnd(rest) == match PathEnd(rest[readEnd..]) case None => None case Some(n) => Some(n + readEnd)
    {
      assert rest[readEnd..][1..] == rest[readEnd + 1..];
      if rest[readEnd] == '\0' {
        return None;
      }
      readEnd := readEnd + 1;
    }
    if readEnd == |rest| {
      return None;
    }
    var readSize := Min(readEnd, HTTP_MSG_MAX_SIZE);
    if readSize == 0 {
      return None;
    }
    return Some((m, rest[..readSize]));
  }

  /** The characters of a url that can be in a message. */
  ghost predicate Plain(s: string) {
    ' ' !in s && '\n' !in s && '\0' !in s
  }

  /** msg is a method up to the first space, then a path up to the next space or newline;
      only so much of either counts as fits its buffer. */
  ghost predicate RequestLine(msg: string, sp: nat, e: nat, m: Method, url: string) {
    && sp + 1 < e < |msg| && msg[sp] == ' ' && ' ' !in msg[..sp] && '\0' !in msg[..sp]
    && !m.INVALID? && MethodName(m) == Some(if sp <= METHOD_MAX_SIZE then msg[..sp] else msg[..METHOD_MAX_SIZE])
    && msg[sp + 1] == '/' && Plain(msg[sp + 1..e]) && (msg[e] == ' ' || msg[e] == '\n')
    && url == (if e - sp - 1 <= HTTP_MSG_MAX_SIZE then msg[sp + 1..e] else msg[sp + 1..sp + 1 + HTTP_MSG_MAX_SIZE])
  }

  lemma MethodTables(s: string, m: Method)
    requires !m.INVALID?
    ensures MethodFrom(s) == m <==> MethodName(m) == Some(s)
  {
  }

  /** A received request line has that shape. */
  lemma ReceiveShape(msg: string) returns (sp: nat, e: nat)
    requires Receive(msg).Some?
    ensures RequestLine(msg, sp, e, Receive(msg).value.0, Receive(msg).value.1)
  {
    hide IndexOf, PathEnd, MethodFrom, MethodName, Plain;
    sp := IndexOf(msg, ' ');
    var rest, m := msg[sp + 1..], Receive(msg).value.0;
    PathEndClean(rest);
    PathEndStops(rest);
    var n := PathEnd(rest).value;
    e := sp + 1 + n;
    Before(msg, ' ', sp);
    Before(msg, '\0', sp);
    MethodTables(msg[..Min(sp, METHOD_MAX_SIZE)], m);
    assert rest[..n] == msg[sp + 1..e] && msg[e] == rest[n];
    assert rest[..Min(n, HTTP_MSG_MAX_SIZE)] == msg[sp + 1..sp + 1 + Min(n, HTTP_MSG_MAX_SIZE)];
  }

  /** ... and every message of that shape is received as such. */
  lemma ShapeReceived(msg: string, sp: nat, e: nat, m: Method, url: string)
    requires RequestLine(msg, sp, e, m, url)
    ensures Receive(msg) == Some((m, url))
  {
    hide IndexOf, PathEnd, MethodFrom, MethodName, Plain;
    FirstAt(msg, ' ', sp);
    NoneBefore(msg, '\0', sp);
    MethodTables(msg[..Min(sp, METHOD_MAX_SIZE)], m);
    var rest := msg[sp + 1..];
    var n := e - sp - 1;
    assert rest[..n] == msg[sp + 1..e];
    PathEndFound(rest, n);
    assert rest[..Min(n, HTTP_MSG_MAX_SIZE)] == msg[sp + 1..sp + 1 + Min(n, HTTP_MSG_MAX_SIZE)];
  }

  lemma Before(msg: string, c: char, k: nat)
    requires k <= IndexOf(msg, c)
    ensures c !in msg[..k]
  {
    hide IndexOf;
    forall i | 0 <= i < k ensures msg[i] != c { IndexOfLeast(msg, c, i); }
  }

  lemma {:induction false} NoneBefore(msg: string, c: char, k: nat)
    requires k <= |msg| && c !in msg[..k]
    ensures IndexOf(msg, c) >= k
    decreases |msg|
  {
    if k > 0 {
      assert msg[..k][0] == msg[0] && msg[1..][..k - 1] == msg[..k][1..];
      NoneBefore(msg[1..], c, k - 1);
    }
  }

  lemma FirstAt(msg: string, c: char, k: nat)
    requires k < |msg| && msg[k] == c && c !in msg[..k]
    ensures IndexOf(msg, c) == k
  {
    hide IndexOf;
    NoneBefore(msg, c, k);
    NotAfter(msg, c, k);
  }

  lemma {:induction false} NotAfter(msg: string, c: char, k: nat)
    requires k < |msg| && msg[k] == c
    ensures IndexOf(msg, c) <= k
    decreases |msg|
  {
    if k > 0 { NotAfter(msg[1..], c, k - 1); }
  }

  lemma {:induction false} PathEndClean(s: string)
    requires PathEnd(s).Some?
    ensures PathEnd(s).value < |s|
    ensures Plain(s[..PathEnd(s).value])
    decreases |s|
  {
    if s[0] != ' ' && s[0] != '\n' {
      PathEndClean(s[1..]);
      assert s[..PathEnd(s).value] == [s[0]] + s[1..][..PathEnd(s[1..]).value];
    }
  }

  lemma {:induction false} PathEndStops(s: string)
    requires PathEnd(s).Some?
    ensures PathEnd(s).value < |s| && (s[PathEnd(s).value] == ' ' || s[PathEnd(s).value] == '\n')
    decreases |s|
  {
    if s[0] != ' ' && s[0] != '\n' { PathEndStops(s[1..]); }
  }

  lemma {:induction false} PathEndFound(s: string, n: nat)
    requires n < |s| && Plain(s[..n]) && (s[n] == ' ' || s[n] == '\n')
    ensures PathEnd(s) == Some(n)
    decreases |s|
  {
    if n > 0 {
      assert s[..n][0] == s[0] && s[1..][..n - 1] == s[..n][1..];
      PathEndFound(s[1..], n - 1);
    }
  }

  lemma {:induction false} PathEndAt(url: string, rest: string)
    requires ' ' !in url && '\n' !in url && '\0' !in url
    ensures PathEnd(url + " " + rest) == Some(|url|)
    decreases |url|
  {
    if url != [] {
      assert url[0] in url;
      assert (url + " " + rest)[1..] == url[1..] + " " + rest;
      PathEndAt(url[1..], rest);
    }
  }

  lemma MethodNames(m: Method)
    requires !m.INVALID?
    ensures MethodName(m).Some? && MethodFrom(MethodName(m).value) == m
    ensures ' ' !in MethodName(m).value && '\0' !in MethodName(m).value && 0 < |MethodName(m).value| <= METHOD_MAX_SIZE
  {
  }

  lemma {:induction false} NotBefore(name: string, rest: string, c: char)
    requires c !in name && c != ' '
    ensures IndexOf(name + [' '] + rest, c) > |name|
    decreases |name|
  {
    var msg := name + [' '] + rest;
    if name != [] {
      assert msg[0] == name[0] && name[0] in name && msg[1..] == name[1..] + [' '] + rest;
      NotBefore(name[1..], rest, c);
    }
  }

  /** A received message yields the method and the url it was built from. */
  lemma MessageRoundTrip(m: Method, url: string)
    requires !m.INVALID? && url != [] && url[0] == '/' && |url| <= HTTP_MSG_MAX_SIZE
    requires ' ' !in url && '\n' !in url && '\0' !in url
    ensures MethodName(m).Some? && Receive(Message(MethodName(m).value, url)) == Some((m, url))
  {
    hide IndexOf, PathEnd, MethodFrom, MethodName;
    MethodNames(m);
    var name := MethodName(m).value;
    var rest := url + " " + "HTTP/1.1\r\n\r\n";
    var msg := Message(name, url);
    assert msg == name + [' '] + rest;
    IndexOfFirst(name, ' ', rest);
    ConcatParts(name, ' ', rest);
    PathEndAt(url, "HTTP/1.1\r\n\r\n");
    NotBefore(name, rest, '\0');
    assert rest[..|url|] == url && rest[0] == url[0];
  }

  // ---------- requests ----------

  /** http_method_for_request_type, kvmessage.c:111-126. */
  function MethodFor(kind: MsgType): Method {
    match kind
    case GETREQ => GET
    case PUTREQ => PUT
    case DELREQ => DELETE
    case REGISTER => POST
    case COMMIT => POST
    case ABORT => POST
    case _ => INVALID
  }

  /** path_for_request_type, kvmessage.c:128-139. */
  function PathFor(kind: MsgType): string {
    match kind
    case REGISTER => "register"
    case COMMIT => "commit"
    case ABORT => "abort"
    case _ => ""
  }

  /** kvrequest_send, kvmessage.c:143-162: the bytes written, or an error. */
  function Send(req: Request): Option<string> {
    match MethodName(MethodFor(req.kind))
    case None => None
    case Some(name) => Some(Message(name, Encode(Params(PathFor(req.kind), req.key, req.value))))
  }

  /** kvrequest_receive, kvmessage.c:13-69. */
  function Understand(msg: string): Option<Request> {
    match Receive(msg)
    case None => None
    case Some((m, url)) =>
      if url == [] || url[0] != '/' then None
      else
        var p := Decode(url);
        match m
        case GET => Some(Request(if p.key == [] then INDEX else GETREQ, p.key, p.val))
        case PUT => if p.key == [] || p.val == [] then None else Some(Request(PUTREQ, p.key, p.val))
        case DELETE => if p.key == [] then None else Some(Request(DELREQ, p.key, p.val))
        case POST =>
          if p.path == [] then None
          else if p.path == "register" then (if p.key == [] || p.val == [] then None else Some(Request(REGISTER, p.key, p.val)))
          else if p.path == "commit" then Some(Request(COMMIT, p.key, p.val))
          else if p.path == "abort" then Some(Request(ABORT, p.key, p.val))
          else Some(Request(EMPTY, p.key, p.val))
        case INVALID => None
  }

  /** Fields that fit the structs and the wire format. */
  ghost predicate Sound(req: Request) {
    |req.key| <= MAX_KEYLEN && |req.value| <= MAX_VALLEN && Clean(req.key) && Clean(req.value)
  }

  /** The fields the receiver insists on for each kind. */
  predicate Accepted(req: Request) {
    match req.kind
    case GETREQ => req.key != []
    case PUTREQ => req.key != [] && req.value != []
    case DELREQ => req.key != []
    case REGISTER => req.key != [] && req.value != []
    case COMMIT => true
    case ABORT => true
    case _ => false
  }

  /** A request on the wire. */
  function Wire(verb: string, path: string, key: string, val: string): string {
    verb + " /" + path + "?key=" + key + "&val=" + val + " HTTP/1.1\r\n\r\n"
  }

  lemma SentAs(kind: MsgType, verb: string, path: string, key: string, val: string)
    requires MethodName(MethodFor(kind)) == Some(verb) && PathFor(kind) == path
    ensures Send(Request(kind, key, val)) == Some(Wire(verb, path, key, val))
  {
    WireIsMessage(verb, path, key, val);
  }

  /** What each kind of request looks like on the wire, and that it is understood. */
  lemma WireForms(key: string, val: string)
    requires Sound(Request(PUTREQ, key, val))
    ensures Send(Request(GETREQ, key, val)) == Some(Wire("GET", "", key, val))
    ensures Send(Request(PUTREQ, key, val)) == Some(Wire("PUT", "", key, val))
    ensures Send(Request(DELREQ, key, val)) == Some(Wire("DELETE", "", key, val))
    ensures Send(Request(REGISTER, key, val)) == Some(Wire("POST", "register", key, val))
    ensures Send(Request(COMMIT, key, val)) == Some(Wire("POST", "commit", key, val))
    ensures Send(Request(ABORT, key, val)) == Some(Wire("POST", "abort", key, val))
    ensures key != "" ==> Understand(Wire("GET", "", key, val)) == Some(Request(GETREQ, key, val))
    ensures key != "" && val != "" ==> Understand(Wire("PUT", "", key, val)) == Some(Request(PUTREQ, key, val))
    ensures key != "" ==> Understand(Wire("DELETE", "", key, val)) == Some(Request(DELREQ, key, val))
    ensures key != "" && val != "" ==> Understand(Wire("POST", "register", key, val)) == Some(Request(REGISTER, key, val))
    ensures Understand(Wire("POST", "commit", key, val)) == Some(Request(COMMIT, key, val))
    ensures Understand(Wire("POST", "abort", key, val)) == Some(Request(ABORT, key, val))
  {
    hide Understand, Wire, Send, Clean;
    SentAs(GETREQ, "GET", "", key, val);
    SentAs(PUTREQ, "PUT", "", key, val);
    SentAs(DELREQ, "DELETE", "", key, val);
    SentAs(REGISTER, "POST", "register", key, val);
    SentAs(COMMIT, "POST", "commit", key, val);
    SentAs(ABORT, "POST", "abort", key, val);
    RequestRoundTrip(Request(GETREQ, key, val));
    RequestRoundTrip(Request(PUTREQ, key, val));
    RequestRoundTrip(Request(DELREQ, key, val));
    RequestRoundTrip(Request(REGISTER, key, val));
    RequestRoundTrip(Request(COMMIT, key, val));
    RequestRoundTrip(Request(ABORT, key, val));
  }

  lemma WireReceived(m: Method, path: string, key: string, val: string)
    requires !m.INVALID? && '?' !in path && Clean(path) && |path| <= PATH_MAX_SIZE && Sound(Request(PUTREQ, key, val))
    ensures var url := Encode(Params(path, key, val));
      && MethodName(m).Some? && Receive(Wire(MethodName(m).value, path, key, val)) == Some((m, url))
      && url != [] && url[0] == '/' && Decode(url) == Params(path, key, val)
  {
    hide Receive, Decode, Clean, Encode, Wire, Message;
    var p := Params(path, key, val);
    CleanUrl(p);
    SoundFields(Request(PUTREQ, key, val));
    UrlRoundTrip(p);
    ShortUrl(p);
    MethodNames(m);
    MessageRoundTrip(m, Encode(p));
    WireIsMessage(MethodName(m).value, path, key, val);
  }

  lemma ShortUrl(p: Params)
    requires |p.path| <= PATH_MAX_SIZE && |p.key| <= MAX_KEYLEN && |p.val| <= MAX_VALLEN
    ensures |Encode(p)| <= HTTP_MSG_MAX_SIZE
  {
  }

  lemma WireIsMessage(verb: string, path: string, key: string, val: string)
    ensures Wire(verb, path, key, val) == Message(verb, Encode(Params(path, key, val)))
  {
    var url := "/" + path + "?key=" + key + "&val=" + val;
    assert verb + " " + url == verb + " /" + path + "?key=" + key + "&val=" + val;
  }

  /** What becomes of the other requests: a GET without a key asks for the index; a missing
      field or path is refused; a POST to any other path has no type. */
  lemma OtherForms(path: string, key: string, val: string)
    requires Sound(Request(PUTREQ, key, val)) && '?' !in path && Clean(path) && |path| <= PATH_MAX_SIZE
    ensures key == "" ==> Understand(Wire("GET", path, key, val)) == Some(Request(INDEX, "", val))
    ensures key == "" || val == "" ==> Understand(Wire("PUT", path, key, val)) == None
    ensures key == "" ==> Understand(Wire("DELETE", path, key, val)) == None
    ensures path == "" ==> Understand(Wire("POST", path, key, val)) == None
    ensures path == "register" && (key == "" || val == "") ==> Understand(Wire("POST", path, key, val)) == None
    ensures path !in {"", "register", "commit", "abort"} ==> Understand(Wire("POST", path, key, val)) == Some(Request(EMPTY, key, val))
  {
    hide Receive, Decode, Wire, Encode, Clean, Sound;
    WireReceived(GET, path, key, val);
    WireReceived(PUT, path, key, val);
    WireReceived(DELETE, path, key, val);
    WireReceived(POST, path, key, val);
  }

  // ---------- what the receiver lets through ----------

  lemma PlainPart(s: string, i: nat, j: nat)
    requires Plain(s) && i <= j <= |s|
    ensures Plain(s[i..j])
  {
  }

  lemma PlainAll(s: string, i: nat)
    requires Plain(s) && i <= |s|
    ensures Plain(s[i..])
  {
  }

  /** Fields that fit their buffers and are clean. */
  ghost predicate FieldsSound(p: Params) {
    |p.key| <= MAX_KEYLEN && |p.val| <= MAX_VALLEN && Clean(p.key) && Clean(p.val)
  }

  lemma StoreSound(p: Params, name: string, data: string)
    requires FieldsSound(p) && Clean(data)
    ensures FieldsSound(Store(p, name, data))
  {
  }

  lemma DataClean(url: string, eq: nat, amp: nat)
    requires Plain(url) && eq < amp == IndexOf(url, '&')
    ensures Clean(url[eq + 1..amp])
  {
    hide IndexOf;
    var data := url[eq + 1..amp];
    forall i | 0 <= i < |data| ensures data[i] != '&' {
      IndexOfLeast(url, '&', eq + 1 + i);
    }
  }

  lemma {:induction false} DecodeParamsSound(url: string, p: Params)
    requires Plain(url) && FieldsSound(p)
    ensures FieldsSound(DecodeParams(url, p))
    decreases |url|
  {
    hide Plain, FieldsSound, Clean, IndexOf, Store;
    var eq, amp := IndexOf(url, '='), IndexOf(url, '&');
    if eq < |url| {
      var p' := if amp < eq then p else Store(p, url[..eq], url[eq + 1..amp]);
      if eq <= amp {
        DifferentPlaces(url);
        DataClean(url, eq, amp);
        StoreSound(p, url[..eq], url[eq + 1..amp]);
      }
      if amp < |url| {
        PlainAll(url, amp + 1);
        DecodeParamsSound(url[amp + 1..], p');
      }
    }
  }

  lemma DifferentPlaces(url: string)
    requires IndexOf(url, '=') < |url|
    ensures IndexOf(url, '=') != IndexOf(url, '&')
  {
    hide IndexOf;
  }

  lemma NoFieldsSound(path: string)
    ensures FieldsSound(Params(path, "", ""))
  {
  }

  /** Whatever bytes arrive, a request that is understood fits the structs, is free of
      the characters the wire cannot carry, and is accepted again if it can be sent on:
      forwarding a received request loses nothing. */
  lemma ReceivedIsSound(msg: string)
    requires Understand(msg).Some?
    ensures var req := Understand(msg).value; Sound(req) && (Accepted(req) || !Send(req).Some?)
  {
    hide Receive, Decode, Clean, Plain;
    ReceivedUrl(msg);
    DecodeSound(Receive(msg).value.1);
  }

  lemma ReceivedUrl(msg: string)
    requires Receive(msg).Some?
    ensures var url := Receive(msg).value.1; Plain(url) && url != [] && url[0] == '/'
  {
    hide IndexOf, PathEnd, MethodFrom, Plain;
    var rest := msg[IndexOf(msg, ' ') + 1..];
    PathEndClean(rest);
    var n := PathEnd(rest).value;
    PlainPart(rest[..n], 0, Min(n, HTTP_MSG_MAX_SIZE));
    assert rest[..n][0..Min(n, HTTP_MSG_MAX_SIZE)] == rest[..Min(n, HTTP_MSG_MAX_SIZE)];
  }

  lemma DecodeSound(url: string)
    requires Plain(url) && url != [] && url[0] == '/'
    ensures FieldsSound(Decode(url))
  {
    hide IndexOf, DecodeParams, Plain, FieldsSound;
    NoFieldsSound(Path(url));
    var q := IndexOf(url, '?');
    if q < |url| {
      PlainAll(url, q + 1);
      DecodeParamsSound(url[q + 1..], Params(Path(url), "", ""));
    }
  }

  /** Every sound request that can be sent fits the declared buffers. */
  lemma MessageFits(req: Request)
    requires Sound(req) && Send(req).Some?
    ensures |Encode(Params(PathFor(req.kind), req.key, req.value))| + 2 <= HTTP_MSG_MAX_SIZE
    ensures |Send(req).value| <= HTTP_MSG_MAX_SIZE && |Send(req).value| <= FULLMSG_MAX_SIZE - 1
  {
  }

  lemma CleanUrl(p: Params)
    requires Clean(p.path) && Clean(p.key) && Clean(p.val)
    ensures ' ' !in Encode(p) && '\n' !in Encode(p) && '\0' !in Encode(p)
  {
  }

  lemma PathsClean(kind: MsgType)
    ensures Clean(PathFor(kind)) && '?' !in PathFor(kind) && |PathFor(kind)| <= PATH_MAX_SIZE
  {
  }

  lemma SoundFields(req: Request)
    requires Sound(req)
    ensures '&' !in req.key && '&' !in req.value
  {
  }

  /** Sending then receiving recovers kind, key and value exactly for the requests
      the receiver accepts. */
  lemma RequestRoundTrip(req: Request)
    requires Sound(req)
    ensures (Send(req).Some? && Understand(Send(req).value) == Some(req)) <==> Accepted(req)
  {
    hide Decode, Encode, Message, Receive, Clean;
    if Send(req).Some? {
      var p := Params(PathFor(req.kind), req.key, req.value);
      PathsClean(req.kind);
      SoundFields(req);
      UrlRoundTrip(p);
      CleanUrl(p);
      MessageFits(req);
      MessageRoundTrip(MethodFor(req.kind), Encode(p));
    }
  }
}
