/** The SOCKS5 client handshake (transport/socks5/socks5.go) and a server of RFC 1928 and RFC 1929. */
module Socks5Handshake {
  import opened Bytes
  import opened Net
  import opened Socks5Addr

  const VERSION: byte := 5
  const NO_AUTH: byte := 0
  const USER_PASS: byte := 2
  const MAX_AUTH_LEN: nat := 255

  datatype User = User(name: Bytes, password: Bytes)
  {
    /** Both fields are limited to 1..255 bytes. */
    predicate Fits() {
      0 < |name| <= MAX_AUTH_LEN && 0 < |password| <= MAX_AUTH_LEN
    }
  }

  datatype Failure =
    | Short | WriteFailed | VersionMismatch | AuthRequired | EmptyCredentials | LongCredentials
    | AuthRejected | UnsupportedMethod | Refused(code: byte) | BadAddress

  /** What a handshake sends, what it leaves unread, and the bound address or the reason it failed. */
  datatype Session = Session(sent: seq<Bytes>, rest: Bytes, result: Outcome)

  datatype Outcome = Bound(addr: Bytes) | Failed(why: Failure)

  function Greeting(user: Option<User>): Bytes {
    [VERSION, 1, if user.Some? then USER_PASS else NO_AUTH]
  }

  function AuthMessage(u: User): Bytes
    requires u.Fits()
  {
    [1, |u.name|] + (u.name + ([|u.password|] + u.password))
  }

  function Request(command: byte, addr: Bytes): Bytes {
    [VERSION, command, 0] + addr
  }

  /** The handshake as a function of the server's byte stream. */
  function Client(addr: Bytes, command: byte, user: Option<User>, s: Bytes): Session {
    var sent := [Greeting(user)];
    if |s| < 2 then Session(sent, [], Failed(Short))
    else if s[0] != VERSION then Session(sent, s[2..], Failed(VersionMismatch))
    else if s[1] == USER_PASS then Authenticate(addr, command, user, sent, s[2..])
    else if s[1] != NO_AUTH then Session(sent, s[2..], Failed(UnsupportedMethod))
    else Ask(addr, command, sent, s[2..])
  }

  function Authenticate(addr: Bytes, command: byte, user: Option<User>, sent: seq<Bytes>, s: Bytes): Session {
    if user.None? then Session(sent, s, Failed(AuthRequired))
    else
      var u := user.value;
      if |u.name| == 0 || |u.password| == 0 then Session(sent, s, Failed(EmptyCredentials))
      else if |u.name| > MAX_AUTH_LEN || |u.password| > MAX_AUTH_LEN then Session(sent, s, Failed(LongCredentials))
      else
        var sent := sent + [AuthMessage(u)];
        if |s| < 2 then Session(sent, [], Failed(Short))
        else if s[1] != 0 then Session(sent, s[2..], Failed(AuthRejected))
        else Ask(addr, command, sent, s[2..])
  }

  function Ask(addr: Bytes, command: byte, sent: seq<Bytes>, s: Bytes): Session {
    var sent := sent + [Request(command, addr)];
    if |s| < 3 then Session(sent, [], Failed(Short))
    else if s[1] != 0 then Session(sent, s[3..], Failed(Refused(s[1])))
    else
      var (bound, rest) := TakeAddr(s[3..]);
      Session(sent, rest, if bound.Some? then Bound(bound.value) else Failed(BadAddress))
  }

  // ---------------------------------------------------------------- what a success means

  /** The bytes a successful handshake takes from the server, besides the bound address. */
  function Overhead(authenticated: bool): nat {
    2 + (if authenticated then 2 else 0) + 3
  }

  /**
  A successful handshake has sent exactly the greeting, the credentials if and only if the server
  asked for them, and the request; it has consumed exactly the replies and left the rest alone.
  */
  lemma SuccessShape(addr: Bytes, command: byte, user: Option<User>, s: Bytes)
    requires Client(addr, command, user, s).result.Bound?
    ensures |s| >= 2 && s[0] == VERSION && (s[1] == NO_AUTH || s[1] == USER_PASS)
    ensures s[1] == USER_PASS ==> user.Some? && user.value.Fits()
    ensures var r := Client(addr, command, user, s);
            && r.sent == [Greeting(user)] + (if s[1] == USER_PASS then [AuthMessage(user.value)] else [])
                         + [Request(command, addr)]
            && SplitAddr(r.result.addr) == Some(r.result.addr)
            && |s| == Overhead(s[1] == USER_PASS) + |r.result.addr| + |r.rest|
            && s[Overhead(s[1] == USER_PASS)..] == r.result.addr + r.rest
  {
    var r := Client(addr, command, user, s);
    var n := Overhead(s[1] == USER_PASS);
    var t := if s[1] == USER_PASS then s[2..][2..] else s[2..];
    assert t[3..] == s[n..];
    assert TakeAddr(s[n..]) == (Some(r.result.addr), r.rest);
    SplitSelf(r.result.addr, r.rest);
    assert s[n..] == r.result.addr + r.rest;
  }

  /** The credentials leave only when a user is set, the server chose method 2, and both fields fit. */
  lemma CredentialsGuarded(addr: Bytes, command: byte, user: Option<User>, s: Bytes)
    ensures var r := Client(addr, command, user, s);
            && 1 <= |r.sent| <= 3 && r.sent[0] == Greeting(user)
            && (forall i :: 1 <= i < |r.sent| && r.sent[i] != Request(command, addr) ==>
                  && i == 1 && user.Some? && user.value.Fits()
                  && |s| >= 2 && s[0] == VERSION && s[1] == USER_PASS && r.sent[i] == AuthMessage(user.value))
  {
  }

  /**
  The handshake succeeds exactly on these streams.  It accepts method 0 also after offering only
  method 2, and never looks at the version byte of the authentication and final replies.
  */
  lemma SuccessIff(addr: Bytes, command: byte, user: Option<User>, s: Bytes)
    ensures Client(addr, command, user, s).result.Bound? <==>
            && |s| >= 2 && s[0] == 5
            && (s[1] == 0 || (s[1] == 2 && user.Some? && user.value.Fits() && |s| >= 4 && s[3] == 0))
            && var n := if s[1] == 2 then 7 else 5;
               |s| >= n && s[n - 2] == 0 && SplitAddr(s[n..]).Some?
  {
    if |s| >= 2 {
      var n := Overhead(s[1] == USER_PASS);
      var t := if s[1] == USER_PASS && |s| >= 4 then s[2..][2..] else s[2..];
      if |s| >= n {
        assert t[3..] == s[n..];
      }
    }
  }

  /** The messages in the bytes of sections 3 and 4 of RFC 1928 and section 2 of RFC 1929. */
  lemma MessageBytes(user: Option<User>, command: byte, addr: Bytes)
    ensures Greeting(user) == if user.Some? then [5, 1, 2] else [5, 1, 0]
    ensures Request(command, addr) == [5, command, 0] + addr
    ensures user.Some? && user.value.Fits() ==>
              var u := user.value;
              AuthMessage(u) == [1, |u.name|] + u.name + [|u.password|] + u.password
  {
  }

  /** The reply that makes a handshake fail tells the reason, in the same bytes. */
  lemma FailureReasons(addr: Bytes, command: byte, user: Option<User>, s: Bytes)
    ensures var r := Client(addr, command, user, s).result;
            && (r == Failed(VersionMismatch) <==> |s| >= 2 && s[0] != 5)
            && (r == Failed(UnsupportedMethod) <==> |s| >= 2 && s[0] == 5 && s[1] != 0 && s[1] != 2)
            && (r == Failed(AuthRequired) <==> |s| >= 2 && s[0] == 5 && s[1] == 2 && user.None?)
            && (r == Failed(EmptyCredentials) <==>
                  |s| >= 2 && s[0] == 5 && s[1] == 2 && user.Some? && (user.value.name == [] || user.value.password == []))
            && (r == Failed(AuthRejected) <==>
                  |s| >= 4 && s[0] == 5 && s[1] == 2 && user.Some? && user.value.Fits() && s[3] != 0)
            && (forall c: byte :: r == Failed(Refused(c)) ==> c != 0)
            && (|s| >= 5 && s[0] == 5 && s[1] == 0 && s[3] != 0 ==> r == Failed(Refused(s[3])))
  {
    if |s| >= 4 {
      assert s[2..][1] == s[3];
    }
  }

  /** Method 0 is accepted from a server that was offered only method 2, and no credentials are sent. */
  lemma SkipsAuthentication(addr: Bytes, command: byte, u: User)
    ensures var s := [VERSION, NO_AUTH, VERSION, 0, 0, ATYP_IPV4, 0, 0, 0, 0, 0, 0];
            var r := Client(addr, command, Some(u), s);
            && Greeting(Some(u)) == [VERSION, 1, USER_PASS]
            && r.result.Bound? && r.sent == [Greeting(Some(u)), Request(command, addr)]
  {
    var s := [VERSION, NO_AUTH, VERSION, 0, 0, ATYP_IPV4, 0, 0, 0, 0, 0, 0];
    assert s[5..] == [ATYP_IPV4, 0, 0, 0, 0, 0, 0];
    SuccessIff(addr, command, Some(u), s);
    SuccessShape(addr, command, Some(u), s);
  }

  // ---------------------------------------------------------------- a server

  /** A server: the accounts it authenticates against, if any, and the address it binds. */
  datatype Server = Server(accounts: Option<set<User>>, bind: Dest)

  /** What a server has replied to the bytes a client sent, and the request it understood. */
  datatype Served = Served(replies: Bytes, request: Option<(byte, Dest)>)

  function Serve(v: Server, input: Bytes): Served {
    if |input| < 2 || input[0] != VERSION || |input| - 2 < input[1] then Served([], None)
    else
      var methods, rest := input[2..2 + input[1] as int], input[2 + input[1] as int..];
      if v.accounts.Some? && USER_PASS in methods then ServeAuth(v, rest)
      else if v.accounts.None? && NO_AUTH in methods then ServeRequest(v, [VERSION, NO_AUTH], rest)
      else Served([VERSION, 0xff], None)
  }

  /** The username/password negotiation of RFC 1929, section 2. */
  function ServeAuth(v: Server, input: Bytes): Served
    requires v.accounts.Some?
  {
    var u := ParseAuth(input);
    if u.None? then Served([VERSION, USER_PASS], None)
    else if u.value.0 in v.accounts.value then ServeRequest(v, [VERSION, USER_PASS, 1, 0], u.value.1)
    else Served([VERSION, USER_PASS, 1, 1], None)
  }

  function ParseAuth(input: Bytes): Option<(User, Bytes)> {
    if |input| < 2 || input[0] != 1 then None
    else
      var n := input[1] as int;
      if |input| < 2 + n + 1 then None
      else
        var m := input[2 + n] as int;
        if |input| < 2 + n + 1 + m then None
        else Some((User(input[2..2 + n], input[3 + n..3 + n + m]), input[3 + n + m..]))
  }

  /** The request of RFC 1928, section 4, granted. */
  function ServeRequest(v: Server, replies: Bytes, input: Bytes): Served {
    if |input| < 3 || input[0] != VERSION || input[2] != 0 then Served(replies, None)
    else
      var target := ParseAddr(input[3..]);
      if target.None? then Served(replies, None)
      else Served(replies + ([VERSION, 0, 0] + SerializeAddr(v.bind)), Some((input[1], target.value.0)))
  }

  /** Client and server can agree: no authentication on both sides, or credentials the server knows. */
  predicate Compatible(v: Server, user: Option<User>) {
    if v.accounts.None? then user.None?
    else user.Some? && user.value.Fits() && user.value in v.accounts.value
  }

  // ---------------------------------------------------------------- client and server together

  lemma ServeGreeting(v: Server, user: Option<User>, tail: Bytes)
    ensures Serve(v, Greeting(user) + tail) ==
            if v.accounts.Some? && user.Some? then ServeAuth(v, tail)
            else if v.accounts.None? && user.None? then ServeRequest(v, [VERSION, NO_AUTH], tail)
            else Served([VERSION, 0xff], None)
  {
    var input := Greeting(user) + tail;
    assert input[2..3] == [if user.Some? then USER_PASS else NO_AUTH];
    assert input[3..] == tail;
  }

  lemma ParseAuthMessage(u: User, tail: Bytes)
    requires u.Fits()
    ensures ParseAuth(AuthMessage(u) + tail) == Some((u, tail))
  {
    var n, m := |u.name|, |u.password|;
    var input := AuthMessage(u) + tail;
    assert input[0] == 1 && input[1] == n;
    assert input[2..2 + n] == u.name;
    assert input[2 + n] == m;
    assert input[3 + n..3 + n + m] == u.password;
    assert input[3 + n + m..] == tail;
  }

  lemma ServeRequestMessage(v: Server, replies: Bytes, command: byte, dst: Dest)
    requires dst.ip.Valid() && dst.WellFormed()
    ensures ServeRequest(v, replies, Request(command, SerializeAddr(dst))) ==
            Served(replies + ([VERSION, 0, 0] + SerializeAddr(v.bind)), Some((command, dst.Target())))
  {
    var input := Request(command, SerializeAddr(dst));
    assert input[3..] == SerializeAddr(dst) + [];
    SerializeParse(dst, []);
  }

  /** The client's last step on the server's grant. */
  lemma AskGranted(addr: Bytes, command: byte, sent: seq<Bytes>, bind: Dest, later: Bytes)
    requires bind.ip.Valid() && bind.WellFormed()
    ensures Ask(addr, command, sent, [VERSION, 0, 0] + (SerializeAddr(bind) + later)) ==
            Session(sent + [Request(command, addr)], later, Bound(SerializeAddr(bind)))
  {
    var s := [VERSION, 0, 0] + (SerializeAddr(bind) + later);
    assert s[3..] == SerializeAddr(bind) + later;
    SerializeSplitIff(bind, later);
    assert (SerializeAddr(bind) + later)[|SerializeAddr(bind)|..] == later;
  }

  /** A handshake that replies to each other: the server has answered all that the client sent. */
  ghost predicate Closed(v: Server, dst: Dest, command: byte, user: Option<User>, replies: Bytes, later: Bytes) {
    replies == Serve(v, Flatten(Client(SerializeAddr(dst), command, user, replies + later).sent)).replies
  }

  lemma GreetingFirst(a: Bytes, command: byte, user: Option<User>, s: Bytes)
    ensures var sent := Client(a, command, user, s).sent;
            sent != [] && Flatten(sent) == Greeting(user) + Flatten(sent[1..])
  {
  }

  /** The first reply tells the method, whatever the client goes on to send. */
  lemma FirstReply(v: Server, user: Option<User>, tail: Bytes)
    ensures var r := Serve(v, Greeting(user) + tail).replies;
            && |r| >= 2 && r[0] == VERSION
            && r[1] == (if v.accounts.Some? && user.Some? then USER_PASS
                        else if v.accounts.None? && user.None? then NO_AUTH else 0xff)
  {
    ServeGreeting(v, user, tail);
  }

  lemma SentWithoutAuth(a: Bytes, command: byte, s: Bytes)
    requires |s| >= 2 && s[0] == VERSION && s[1] == NO_AUTH
    ensures Client(a, command, None, s) == Ask(a, command, [Greeting(None)], s[2..])
    ensures Flatten(Client(a, command, None, s).sent) == Greeting(None) + Request(command, a)
  {
    var sent := Client(a, command, None, s).sent;
    assert sent == [Greeting(None)] + [Request(command, a)];
    FlattenSnoc([Greeting(None)], Request(command, a));
    FlattenSingle(Greeting(None));
  }

  lemma ServedWithoutAuth(v: Server, command: byte, dst: Dest)
    requires dst.ip.Valid() && dst.WellFormed() && v.accounts.None?
    ensures Serve(v, Greeting(None) + Request(command, SerializeAddr(dst))) ==
            Served([VERSION, NO_AUTH] + ([VERSION, 0, 0] + SerializeAddr(v.bind)), Some((command, dst.Target())))
  {
    ServeGreeting(v, None, Request(command, SerializeAddr(dst)));
    ServeRequestMessage(v, [VERSION, NO_AUTH], command, dst);
  }

  /** What follows the first part of the replies in the stream the client reads. */
  lemma AfterReplies(first: Bytes, grant: Bytes, bound: Bytes, later: Bytes)
    ensures ((first + (grant + bound)) + later)[|first|..] == grant + (bound + later)
  {
    Reassociate(first, grant + bound, later);
    Reassociate(grant, bound, later);
    assert (first + (grant + (bound + later)))[|first|..] == grant + (bound + later);
  }

  lemma ClosedWithoutAuth(v: Server, dst: Dest, command: byte, replies: Bytes, later: Bytes)
    requires dst.ip.Valid() && dst.WellFormed() && v.bind.ip.Valid() && v.bind.WellFormed()
    requires v.accounts.None? && Closed(v, dst, command, None, replies, later)
    ensures var r := Client(SerializeAddr(dst), command, None, replies + later);
            && r.result == Bound(SerializeAddr(v.bind)) && r.rest == later
            && Serve(v, Flatten(r.sent)).request == Some((command, dst.Target()))
  {
    var a, s := SerializeAddr(dst), replies + later;
    GreetingFirst(a, command, None, s);
    FirstReply(v, None, Flatten(Client(a, command, None, s).sent[1..]));
    SentWithoutAuth(a, command, s);
    ServedWithoutAuth(v, command, dst);
    AfterReplies([VERSION, NO_AUTH], [VERSION, 0, 0], SerializeAddr(v.bind), later);
    AskGranted(a, command, [Greeting(None)], v.bind, later);
  }

  lemma AuthenticatedTail(a: Bytes, command: byte, u: User, s: Bytes)
    requires u.Fits() && |s| >= 2 && s[0] == VERSION && s[1] == USER_PASS
    ensures var r := Client(a, command, Some(u), s);
            |r.sent| >= 2 && Flatten(r.sent) == Greeting(Some(u)) + (AuthMessage(u) + Flatten(r.sent[2..]))
  {
    var r := Client(a, command, Some(u), s);
    GreetingFirst(a, command, Some(u), s);
    assert r.sent[1] == AuthMessage(u);
    assert r.sent[1..][1..] == r.sent[2..];
  }

  /** The second reply tells whether the credentials were accepted. */
  lemma SecondReply(v: Server, u: User, tail: Bytes)
    requires v.accounts.Some? && u.Fits()
    ensures var r := Serve(v, Greeting(Some(u)) + (AuthMessage(u) + tail)).replies;
            |r| >= 4 && r[3] == if u in v.accounts.value then 0 else 1
  {
    ServeGreeting(v, Some(u), AuthMessage(u) + tail);
    ParseAuthMessage(u, tail);
  }

  lemma SentWithAuth(a: Bytes, command: byte, u: User, s: Bytes)
    requires u.Fits() && |s| >= 4 && s[0] == VERSION && s[1] == USER_PASS && s[3] == 0
    ensures Client(a, command, Some(u), s) == Ask(a, command, [Greeting(Some(u))] + [AuthMessage(u)], s[4..])
    ensures Flatten(Client(a, command, Some(u), s).sent) ==
            Greeting(Some(u)) + (AuthMessage(u) + Request(command, a))
  {
    assert s[2..][2..] == s[4..];
    var sent := Client(a, command, Some(u), s).sent;
    assert sent == ([Greeting(Some(u))] + [AuthMessage(u)]) + [Request(command, a)];
    assert sent[2..] == [Request(command, a)];
    AuthenticatedTail(a, command, u, s);
    FlattenSingle(Request(command, a));
  }

  lemma ServedWithAuth(v: Server, command: byte, dst: Dest, u: User)
    requires dst.ip.Valid() && dst.WellFormed() && v.accounts.Some? && u.Fits() && u in v.accounts.value
    ensures Serve(v, Greeting(Some(u)) + (AuthMessage(u) + Request(command, SerializeAddr(dst)))) ==
            Served([VERSION, USER_PASS, 1, 0] + ([VERSION, 0, 0] + SerializeAddr(v.bind)),
                   Some((command, dst.Target())))
  {
    ServeGreeting(v, Some(u), AuthMessage(u) + Request(command, SerializeAddr(dst)));
    ParseAuthMessage(u, Request(command, SerializeAddr(dst)));
    ServeRequestMessage(v, [VERSION, USER_PASS, 1, 0], command, dst);
  }

  lemma ClosedWithAuth(v: Server, dst: Dest, command: byte, u: User, replies: Bytes, later: Bytes)
    requires dst.ip.Valid() && dst.WellFormed() && v.bind.ip.Valid() && v.bind.WellFormed()
    requires v.accounts.Some? && u.Fits() && Closed(v, dst, command, Some(u), replies, later)
    ensures var r := Client(SerializeAddr(dst), command, Some(u), replies + later);
            if u in v.accounts.value then
              && r.result == Bound(SerializeAddr(v.bind)) && r.rest == later
              && Serve(v, Flatten(r.sent)).request == Some((command, dst.Target()))
            else r.result == Failed(AuthRejected)
  {
    var a, s := SerializeAddr(dst), replies + later;
    GreetingFirst(a, command, Some(u), s);
    FirstReply(v, Some(u), Flatten(Client(a, command, Some(u), s).sent[1..]));
    AuthenticatedTail(a, command, u, s);
    SecondReply(v, u, Flatten(Client(a, command, Some(u), s).sent[2..]));
    if u in v.accounts.value {
      SentWithAuth(a, command, u, s);
      ServedWithAuth(v, command, dst, u);
      AfterReplies([VERSION, USER_PASS, 1, 0], [VERSION, 0, 0], SerializeAddr(v.bind), later);
      AskGranted(a, command, [Greeting(Some(u))] + [AuthMessage(u)], v.bind, later);
    } else {
      RejectedByServer(a, command, u, s);
    }
  }

  lemma RejectedByServer(a: Bytes, command: byte, u: User, s: Bytes)
    requires u.Fits() && |s| >= 4 && s[0] == VERSION && s[1] == USER_PASS && s[3] != 0
    ensures Client(a, command, Some(u), s).result == Failed(AuthRejected)
  {
    assert s[2..][1] == s[3];
  }

  /**
  Whenever the server has answered everything the client sent, the handshake has succeeded if and
  only if the two are compatible; then the client holds the bound address, later bytes are
  untouched, and the server has decoded the same command and target.
  */
  lemma ClosedLoop(v: Server, dst: Dest, command: byte, user: Option<User>, replies: Bytes, later: Bytes)
    requires dst.ip.Valid() && dst.WellFormed() && v.bind.ip.Valid() && v.bind.WellFormed()
    requires Closed(v, dst, command, user, replies, later)
    ensures var r := Client(SerializeAddr(dst), command, user, replies + later);
            && (r.result.Bound? <==> Compatible(v, user))
            && (Compatible(v, user) ==>
                  && r.result == Bound(SerializeAddr(v.bind)) && r.rest == later
                  && Serve(v, Flatten(r.sent)).request == Some((command, dst.Target())))
  {
    var a, s := SerializeAddr(dst), replies + later;
    GreetingFirst(a, command, user, s);
    FirstReply(v, user, Flatten(Client(a, command, user, s).sent[1..]));
    if v.accounts.None? && user.None? {
      ClosedWithoutAuth(v, dst, command, replies, later);
    } else if v.accounts.Some? && user.Some? && user.value.Fits() {
      ClosedWithAuth(v, dst, command, user.value, replies, later);
    }
  }

  /** Such a handshake exists for every compatible pair. */
  lemma LoopCloses(v: Server, dst: Dest, command: byte, user: Option<User>, later: Bytes)
    requires dst.ip.Valid() && dst.WellFormed() && v.bind.ip.Valid() && v.bind.WellFormed()
    requires Compatible(v, user)
    ensures exists replies :: Closed(v, dst, command, user, replies, later)
  {
    var a, grant, bound := SerializeAddr(dst), [VERSION, 0, 0], SerializeAddr(v.bind);
    var first := if user.None? then [VERSION, NO_AUTH] else [VERSION, USER_PASS, 1, 0];
    var replies := first + (grant + bound);
    var s := replies + later;
    AfterReplies(first, grant, bound, later);
    if user.None? {
      SentWithoutAuth(a, command, s);
      ServedWithoutAuth(v, command, dst);
    } else {
      SentWithAuth(a, command, user.value, s);
      ServedWithAuth(v, command, dst, user.value);
    }
    assert Closed(v, dst, command, user, replies, later);
  }

  // ---------------------------------------------------------------- the client's code

  /** All but the last of the messages, in order, and a part of the last. */
  ghost predicate CutOff(log: seq<Bytes>, sent: seq<Bytes>) {
    0 < |log| <= |sent| && log[..|log| - 1] == sent[..|log| - 1] && log[|log| - 1] <= sent[|log| - 1]
  }

  /** What was sent by a handshake whose last write failed is guarded like everything it would have sent. */
  lemma CutOffGuarded(addr: Bytes, command: byte, user: Option<User>, s: Bytes, log: seq<Bytes>)
    requires CutOff(log, Client(addr, command, user, s).sent)
    ensures log[0] <= Greeting(user)
    ensures forall i :: 1 <= i < |log| && !(log[i] <= Request(command, addr)) ==>
              && i == 1 && user.Some? && user.value.Fits() && log[i] <= AuthMessage(user.value)
              && |s| >= 2 && s[0] == VERSION && s[1] == USER_PASS
  {
    var r := Client(addr, command, user, s);
    CredentialsGuarded(addr, command, user, s);
    forall i | 0 <= i < |log| ensures log[i] <= r.sent[i] {
      if i < |log| - 1 {
        assert log[i] == log[..|log| - 1][i] == r.sent[..|log| - 1][i] == r.sent[i];
      }
    }
  }

  lemma GreetingCut(addr: Bytes, command: byte, user: Option<User>, s: Bytes, part: Bytes)
    requires part <= Greeting(user)
    ensures CutOff([part], Client(addr, command, user, s).sent)
  {
  }

  lemma CredentialsCut(addr: Bytes, command: byte, u: User, s: Bytes, part: Bytes)
    requires |s| >= 2 && s[0] == VERSION && s[1] == USER_PASS && u.Fits() && part <= AuthMessage(u)
    ensures CutOff([Greeting(Some(u))] + [part], Client(addr, command, Some(u), s).sent)
  {
    var sent := Client(addr, command, Some(u), s).sent;
    assert |sent| >= 2 && sent[0] == Greeting(Some(u)) && sent[1] == AuthMessage(u);
  }

  lemma RequestCut(addr: Bytes, command: byte, sent: seq<Bytes>, s: Bytes, part: Bytes)
    requires part <= Request(command, addr)
    ensures CutOff(sent + [part], Ask(addr, command, sent, s).sent)
  {
    var all := Ask(addr, command, sent, s).sent;
    assert all == sent + [Request(command, addr)] && all[..|sent|] == sent && (sent + [part])[..|sent|] == sent;
  }

  /**
  `ClientHandshake` does what `Client` says.  If a write fails, the messages before it and a part of
  its own were sent, and two bytes were read for each message before it.
  */
  method ClientHandshake(src: Source, sink: Sink, addr: Bytes, command: byte, user: Option<User>)
    returns (result: Outcome, ghost log: seq<Bytes>)
    modifies src, sink
    ensures sink.log == old(sink.log) + log && (sink.reliable ==> result != Failed(WriteFailed))
    ensures result != Failed(WriteFailed) ==>
              Client(addr, command, user, old(src.data)) == Session(log, src.data, result)
    ensures result == Failed(WriteFailed) ==>
              && CutOff(log, Client(addr, command, user, old(src.data)).sent)
              && 2 * (|log| - 1) <= |old(src.data)| && src.data == old(src.data)[2 * (|log| - 1)..]
  {
    ghost var base, s := sink.log, src.data;
    var buf := new byte[MAX_ADDR_LEN];
    var greeting := [VERSION, 1, if user.Some? then USER_PASS else NO_AUTH];
    var n, failed := sink.Write(greeting);
    log := [greeting[..n]];
    if failed {
      GreetingCut(addr, command, user, s, greeting[..n]);
      return Failed(WriteFailed), log;
    }
    assert greeting[..n] == greeting;
    var got, err := src.ReadFull(buf, 0, 2);
    if err != Ok {
      return Failed(Short), log;
    }
    assert buf[0] == buf[..2][0] && buf[1] == buf[..2][1];
    if buf[0] != VERSION {
      return Failed(VersionMismatch), log;
    }
    if buf[1] == USER_PASS {
      result, log := AfterMethodTwo(src, sink, buf, addr, command, user, base, s);
    } else if buf[1] != NO_AUTH {
      result := Failed(UnsupportedMethod);
    } else {
      result, log := SendRequest(src, sink, buf, addr, command, base, log);
    }
  }

  /** The rest of the handshake once the server has chosen method 2. */
  method AfterMethodTwo(src: Source, sink: Sink, buf: array<byte>, addr: Bytes, command: byte, user: Option<User>,
                        ghost base: seq<Bytes>, ghost s: Bytes)
    returns (result: Outcome, ghost log: seq<Bytes>)
    requires buf.Length >= MAX_ADDR_LEN && sink.log == base + [Greeting(user)]
    requires |s| >= 2 && s[0] == VERSION && s[1] == USER_PASS && src.data == s[2..]
    modifies src, sink, buf
    ensures sink.log == base + log && (sink.reliable ==> result != Failed(WriteFailed))
    ensures result != Failed(WriteFailed) ==> Client(addr, command, user, s) == Session(log, src.data, result)
    ensures result == Failed(WriteFailed) ==>
              && CutOff(log, Client(addr, command, user, s).sent)
              && 2 * (|log| - 1) <= |s| && src.data == s[2 * (|log| - 1)..]
  {
    var why;
    why, log := SendCredentials(src, sink, buf, user, base, [Greeting(user)], addr, command);
    if why.Some? {
      if why.value == WriteFailed {
        CredentialsCut(addr, command, user.value, s, log[1]);
      }
      return Failed(why.value), log;
    }
    assert s[2..][2..] == s[4..];
    result, log := SendRequest(src, sink, buf, addr, command, base, log);
  }

  /** The username/password part; None means that the server accepted. */
  method SendCredentials(src: Source, sink: Sink, buf: array<byte>, user: Option<User>, ghost base: seq<Bytes>,
                         ghost sent: seq<Bytes>, ghost addr: Bytes, ghost command: byte)
    returns (why: Option<Failure>, ghost log: seq<Bytes>)
    requires buf.Length >= MAX_ADDR_LEN && sink.log == base + sent
    modifies src, sink, buf
    ensures sink.log == base + log && (sink.reliable ==> why != Some(WriteFailed))
    ensures why.None? ==>
              && user.Some? && user.value.Fits() && |old(src.data)| >= 2 && old(src.data)[1] == 0
              && src.data == old(src.data)[2..] && log == sent + [AuthMessage(user.value)]
    ensures why == Some(WriteFailed) ==>
              && user.Some? && user.value.Fits() && src.data == old(src.data)
              && |log| == |sent| + 1 && log[..|sent|] == sent && log[|sent|] <= AuthMessage(user.value)
    ensures why.Some? && why.value != WriteFailed ==>
              Authenticate(addr, command, user, sent, old(src.data)) == Session(log, src.data, Failed(why.value))
  {
    log := sent;
    if user.None? {
      return Some(AuthRequired), log;
    }
    var u := user.value;
    if |u.name| == 0 || |u.password| == 0 {
      return Some(EmptyCredentials), log;
    } else if |u.name| > MAX_AUTH_LEN || |u.password| > MAX_AUTH_LEN {
      return Some(LongCredentials), log;
    }
    var message := [1, |u.name|] + (u.name + ([|u.password|] + u.password));
    var n, failed := sink.Write(message);
    log := sent + [message[..n]];
    if failed {
      return Some(WriteFailed), log;
    }
    assert message[..n] == message;
    var got, err := src.ReadFull(buf, 0, 2);
    if err != Ok {
      return Some(Short), log;
    }
    assert buf[1] == buf[..2][1];
    why := if buf[1] != 0 then Some(AuthRejected) else None;
  }

  /** The request and its reply. */
  method SendRequest(src: Source, sink: Sink, buf: array<byte>, addr: Bytes, command: byte, ghost base: seq<Bytes>,
                     ghost sent: seq<Bytes>)
    returns (result: Outcome, ghost log: seq<Bytes>)
    requires buf.Length >= MAX_ADDR_LEN && sink.log == base + sent
    modifies src, sink, buf
    ensures sink.log == base + log && (sink.reliable ==> result != Failed(WriteFailed))
    ensures result != Failed(WriteFailed) ==>
              Ask(addr, command, sent, old(src.data)) == Session(log, src.data, result)
    ensures result == Failed(WriteFailed) ==>
              && src.data == old(src.data) && |log| == |sent| + 1
              && CutOff(log, Ask(addr, command, sent, src.data).sent)
  {
    var message := [VERSION, command, 0] + addr;
    var n, failed := sink.Write(message);
    log := sent + [message[..n]];
    if failed {
      RequestCut(addr, command, sent, src.data, message[..n]);
      return Failed(WriteFailed), log;
    }
    assert message[..n] == message;
    var got, err := src.ReadFull(buf, 0, 3);
    if err != Ok {
      return Failed(Short), log;
    }
    assert buf[1] == buf[..3][1];
    if buf[1] != 0 {
      return Failed(Refused(buf[1])), log;
    }
    n, err := ReadAddr(src, buf);
    result := if err == Ok then Bound(buf[..n]) else Failed(BadAddress);
  }
}
