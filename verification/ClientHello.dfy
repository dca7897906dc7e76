/**
The TLS ClientHello that simple-obfs sends as its first message (transport/simple-obfs/tls.go),
and an independent parser for it: section 7.4.1.2 of RFC 5246 for the message, section 3 of
RFC 6066 for the server name, section 3.2 of RFC 5077 for the session ticket.
*/
module ClientHello {
  import opened Bytes

  // ---------------------------------------------------------------- what is built

  const SUITES: Bytes := [
    0xc0, 0x2c, 0xc0, 0x30, 0x00, 0x9f, 0xcc, 0xa9, 0xcc, 0xa8, 0xcc, 0xaa, 0xc0, 0x2b, 0xc0, 0x2f,
    0x00, 0x9e, 0xc0, 0x24, 0xc0, 0x28, 0x00, 0x6b, 0xc0, 0x23, 0xc0, 0x27, 0x00, 0x67, 0xc0, 0x0a,
    0xc0, 0x14, 0x00, 0x39, 0xc0, 0x09, 0xc0, 0x13, 0x00, 0x33, 0x00, 0x9d, 0x00, 0x9c, 0x00, 0x3d,
    0x00, 0x3c, 0x00, 0x35, 0x00, 0x2f, 0x00, 0xff]

  const EC_POINT: Bytes := [0x00, 0x0b, 0x00, 0x04, 0x03, 0x01, 0x00, 0x02]

  const GROUPS: Bytes := [0x00, 0x0a, 0x00, 0x0a, 0x00, 0x08, 0x00, 0x1d, 0x00, 0x17, 0x00, 0x19, 0x00, 0x18]

  const SIGNATURE: Bytes := [
    0x00, 0x0d, 0x00, 0x20, 0x00, 0x1e, 0x06, 0x01, 0x06, 0x02, 0x06, 0x03, 0x05,
    0x01, 0x05, 0x02, 0x05, 0x03, 0x04, 0x01, 0x04, 0x02, 0x04, 0x03, 0x03, 0x01,
    0x03, 0x02, 0x03, 0x03, 0x02, 0x01, 0x02, 0x02, 0x02, 0x03]

  const ENCRYPT_THEN_MAC: Bytes := [0x00, 0x16, 0x00, 0x00]

  const MASTER_SECRET: Bytes := [0x00, 0x17, 0x00, 0x00]

  function Ticket(data: Bytes): Bytes {
    [0x00, 0x23] + (Be16(|data|) + data)
  }

  function ServerName(server: Bytes): Bytes {
    [0x00, 0x00] + (Be16(|server| + 5) + (Be16(|server| + 3) + ([0] + (Be16(|server|) + server))))
  }

  /** The parts of the message that never change. */
  datatype Blocks = Blocks(suites: Bytes, ec: Bytes, groups: Bytes, signature: Bytes, mac: Bytes, secret: Bytes)
  {
    function Tail(): Bytes {
      ec + (groups + (signature + (mac + secret)))
    }
  }

  const BLOCKS := Blocks(SUITES, EC_POINT, GROUPS, SIGNATURE, ENCRYPT_THEN_MAC, MASTER_SECRET)

  function Extensions(c: Blocks, data: Bytes, server: Bytes): Bytes {
    Ticket(data) + (ServerName(server) + c.Tail())
  }

  /** The random inputs of one message. */
  datatype Entropy = Entropy(time: Bytes, random: Bytes, session: Bytes)
  {
    predicate Valid() {
      |time| == 4 && |random| == 28 && |session| == 32
    }
  }

  function Preface(c: Blocks, e: Entropy): Bytes {
    [0x03, 0x03] + (e.time + (e.random + ([32] + (e.session + ([0x00, 0x38] + (c.suites + [0x01, 0x00]))))))
  }

  function Hello(c: Blocks, data: Bytes, server: Bytes, e: Entropy): Bytes {
    var n := |data| + |server|;
    [22, 0x03, 0x01] + (Be16(212 + n) +
                        ([1, 0] + (Be16(208 + n) + (Preface(c, e) + (Be16(79 + n) + Extensions(c, data, server))))))
  }

  // ---------------------------------------------------------------- how it is built

  method AppendServerName(buf: Bytes, server: Bytes) returns (r: Bytes)
    ensures r == buf + ServerName(server)
  {
    r := buf + [0x00, 0x00];
    r := r + Be16(|server| + 5);
    r := r + Be16(|server| + 3);
    r := r + [0];
    r := r + Be16(|server|);
    r := r + server;
  }

  method AppendTail(buf: Bytes, c: Blocks) returns (r: Bytes)
    ensures r == buf + c.Tail()
  {
    r := buf + c.ec;
    r := r + c.groups;
    r := r + c.signature;
    r := r + c.mac;
    r := r + c.secret;
  }

  method AppendExtensions(buf: Bytes, c: Blocks, data: Bytes, server: Bytes) returns (r: Bytes)
    ensures r == buf + Extensions(c, data, server)
  {
    r := buf + [0x00, 0x23] + Be16(|data|) + data;
    assert r == buf + Ticket(data);
    r := AppendServerName(r, server);
    r := AppendTail(r, c);
    Reassociate(buf, Ticket(data), ServerName(server));
    Reassociate(buf, Ticket(data) + ServerName(server), c.Tail());
    Reassociate(Ticket(data), ServerName(server), c.Tail());
  }

  method AppendPreface(buf: Bytes, c: Blocks, e: Entropy) returns (r: Bytes)
    ensures r == buf + Preface(c, e)
  {
    r := buf + [0x03, 0x03];
    r := r + e.time;
    r := r + e.random;
    r := r + [32];
    r := r + e.session;
    r := r + [0x00, 0x38];
    r := r + c.suites;
    r := r + [0x01, 0x00];
  }

  /** `makeClientHelloMsg`. */
  method MakeClientHello(c: Blocks, data: Bytes, server: Bytes, e: Entropy) returns (buf: Bytes)
    ensures buf == Hello(c, data, server, e)
  {
    var n := |data| + |server|;
    buf := [22] + [0x03, 0x01];
    buf := buf + Be16(212 + n);
    buf := buf + [1] + [0];
    buf := buf + Be16(208 + n);
    ghost var head, exts := buf, Extensions(c, data, server);
    buf := AppendPreface(buf, c, e);
    buf := buf + Be16(79 + n);
    buf := AppendExtensions(buf, c, data, server);
    Reassociate(head + Preface(c, e), Be16(79 + n), exts);
    Reassociate(head, Preface(c, e), Be16(79 + n) + exts);
    HeadShape(n, Preface(c, e) + (Be16(79 + n) + exts));
  }

  lemma HeadShape(n: nat, rest: Bytes)
    ensures ([22] + [0x03, 0x01] + Be16(212 + n) + [1] + [0] + Be16(208 + n)) + rest ==
            [22, 0x03, 0x01] + (Be16(212 + n) + ([1, 0] + (Be16(208 + n) + rest)))
  {
  }

  // ---------------------------------------------------------------- an independent parser

  /** A vector with a 16-bit length, and what follows it. */
  function Vector16(b: Bytes): (r: Option<(Bytes, Bytes)>)
    ensures r.Some? ==> |b| == 2 + |r.value.0| + |r.value.1|
  {
    if |b| < 2 then None
    else
      var n := FromBe16(b[0], b[1]);
      if |b| - 2 < n then None else Some((b[2..2 + n], b[2 + n..]))
  }

  /** A vector with an 8-bit length, and what follows it. */
  function Vector8(b: Bytes): (r: Option<(Bytes, Bytes)>)
    ensures r.Some? ==> |b| == 1 + |r.value.0| + |r.value.1|
  {
    if |b| < 1 || |b| - 1 < b[0] then None
    else Some((b[1..1 + b[0]], b[1 + b[0]..]))
  }

  datatype Extension = Extension(kind: nat, body: Bytes)

  /** The extension block: type, length and body, until nothing is left. */
  function ParseExtensions(b: Bytes): Option<seq<Extension>>
    decreases |b|
  {
    if b == [] then Some([])
    else if |b| < 4 then None
    else
      var v := Vector16(b[2..]);
      if v.None? then None
      else
        var more := ParseExtensions(v.value.1);
        if more.None? then None
        else Some([Extension(FromBe16(b[0], b[1]), v.value.0)] + more.value)
  }

  function Find(xs: seq<Extension>, kind: nat): Option<Bytes> {
    if xs == [] then None else if xs[0].kind == kind then Some(xs[0].body) else Find(xs[1..], kind)
  }

  function Kinds(xs: seq<Extension>): set<nat> {
    if xs == [] then {} else {xs[0].kind} + Kinds(xs[1..])
  }

  /** No extension may occur twice. */
  predicate Unique(xs: seq<Extension>) {
    xs == [] || (xs[0].kind !in Kinds(xs[1..]) && Unique(xs[1..]))
  }

  /** The vector fills the whole extension body, and holds two-byte items if `even`. */
  predicate IsVector(v: Option<(Bytes, Bytes)>, even: bool) {
    v.Some? && v.value.1 == [] && v.value.0 != [] && (even ==> |v.value.0| % 2 == 0)
  }

  /** The bodies of the extensions whose layout is known. */
  predicate WellFormed(x: Extension) {
    match x.kind
    case 0x0b => IsVector(Vector8(x.body), false)
    case 0x0a => IsVector(Vector16(x.body), true)
    case 0x0d => IsVector(Vector16(x.body), true)
    case 0x16 => x.body == []
    case 0x17 => x.body == []
    case _ => true
  }

  predicate AllWellFormed(xs: seq<Extension>) {
    xs == [] || (WellFormed(xs[0]) && AllWellFormed(xs[1..]))
  }

  /** A server name list with its one host name, which must not be empty. */
  function ParseServerName(b: Bytes): Option<Bytes> {
    var list := Vector16(b);
    if list.None? || list.value.1 != [] then None
    else if |list.value.0| < 1 || list.value.0[0] != 0 then None
    else
      var host := Vector16(list.value.0[1..]);
      if host.None? || host.value.1 != [] || host.value.0 == [] then None else Some(host.value.0)
  }

  /** What the extensions tell. */
  datatype Extras = Extras(ticket: Bytes, server: Bytes)

  /** What a server learns: the 32 random bytes, the session id, the cipher suites and the extensions. */
  datatype Parsed = Parsed(random: Bytes, session: Bytes, suites: Bytes, extras: Extras)

  function ParseExtensionBlock(b: Bytes): Option<Extras> {
    var xs := ParseExtensions(b);
    if xs.None? || !Unique(xs.value) || !AllWellFormed(xs.value) then None
    else
      var ticket := Find(xs.value, 0x23);
      var name := Find(xs.value, 0);
      if ticket.None? || name.None? then None
      else
        var host := ParseServerName(name.value);
        if host.None? then None else Some(Extras(ticket.value, host.value))
  }

  /** The body of a ClientHello: version, random, session id, cipher suites, compression, extensions. */
  function ParseBody(b: Bytes): Option<Parsed> {
    if |b| < 34 || b[0] != 3 || b[1] != 3 then None
    else
      var session := Vector8(b[34..]);
      if session.None? || |session.value.0| > 32 then None
      else ParseSuites(b[2..34], session.value.0, session.value.1)
  }

  function ParseSuites(random: Bytes, session: Bytes, b: Bytes): Option<Parsed> {
    var suites := Vector16(b);
    if !(suites.Some? && |suites.value.0| > 0 && |suites.value.0| % 2 == 0) then None
    else
      var compression := Vector8(suites.value.1);
      if compression.None? || compression.value.0 == [] then None
      else
        var exts := Vector16(compression.value.1);
        if exts.None? || exts.value.1 != [] then None
        else
          var extras := ParseExtensionBlock(exts.value.0);
          if extras.None? then None else Some(Parsed(random, session, suites.value.0, extras.value))
  }

  /** One handshake message that fills its record. */
  function ParseHandshake(b: Bytes): Option<Parsed> {
    if |b| < 4 || b[0] != 1 then None
    else if 0x1_0000 * b[1] as int + FromBe16(b[2], b[3]) != |b| - 4 then None
    else ParseBody(b[4..])
  }

  /** One TLS record holding a ClientHello, and the bytes after the record. */
  function ParseHello(b: Bytes): (r: Option<(Parsed, Bytes)>)
    ensures r.Some? ==> |b| >= 5 && |b| == 5 + FromBe16(b[3], b[4]) + |r.value.1|
  {
    if |b| < 5 || b[0] != 22 || b[1] != 3 then None
    else
      var record := Vector16(b[3..]);
      if record.None? then None
      else
        var hello := ParseHandshake(record.value.0);
        if hello.None? then None else Some((hello.value, record.value.1))
  }

  // ---------------------------------------------------------------- the round trip

  lemma Vector16Of(v: Bytes, rest: Bytes)
    requires |v| < 0x1_0000
    ensures Vector16(Be16(|v|) + (v + rest)) == Some((v, rest))
  {
    Be16Value(|v|);
    var b := Be16(|v|) + (v + rest);
    assert b[2..2 + |v|] == v;
    assert b[2 + |v|..] == rest;
  }

  lemma UnfoldExtensions(b: Bytes, body: Bytes, rest: Bytes)
    requires |b| >= 4 && Vector16(b[2..]) == Some((body, rest))
    ensures ParseExtensions(b) ==
            var more := ParseExtensions(rest);
            if more.None? then None else Some([Extension(FromBe16(b[0], b[1]), body)] + more.value)
  {
  }

  /** One extension with an exact length is split off the block. */
  lemma ExtensionStep(hi: byte, lo: byte, body: Bytes, rest: Bytes)
    requires |body| < 0x1_0000
    ensures ParseExtensions([hi, lo] + (Be16(|body|) + (body + rest))) ==
            var more := ParseExtensions(rest);
            if more.None? then None else Some([Extension(FromBe16(hi, lo), body)] + more.value)
  {
    var b := [hi, lo] + (Be16(|body|) + (body + rest));
    Vector16Of(body, rest);
    assert b[2..] == Be16(|body|) + (body + rest);
    assert b[0] == hi && b[1] == lo;
    UnfoldExtensions(b, body, rest);
  }

  /** The same for an extension written out as constant bytes. */
  lemma ConstantStep(x: Bytes, rest: Bytes)
    requires |x| >= 4 && |x| == 4 + FromBe16(x[2], x[3])
    ensures ParseExtensions(x + rest) ==
            var more := ParseExtensions(rest);
            if more.None? then None else Some([Extension(FromBe16(x[0], x[1]), x[4..])] + more.value)
  {
    var b := x + rest;
    assert b[2..][2..2 + FromBe16(x[2], x[3])] == x[4..];
    assert b[2..][2 + FromBe16(x[2], x[3])..] == rest;
    UnfoldExtensions(b, x[4..], rest);
  }

  /** A constant extension of the given type whose length field and layout are right. */
  ghost predicate IsExtension(x: Bytes, kind: nat) {
    && |x| >= 4 && |x| == 4 + FromBe16(x[2], x[3]) && FromBe16(x[0], x[1]) == kind
    && WellFormed(Extension(kind, x[4..]))
  }

  ghost predicate ValidBlocks(c: Blocks) {
    && |c.suites| == 0x38
    && IsExtension(c.ec, 0x0b) && IsExtension(c.groups, 0x0a) && IsExtension(c.signature, 0x0d)
    && IsExtension(c.mac, 0x16) && IsExtension(c.secret, 0x17)
    && |c.Tail()| == 66
  }

  lemma ConstantNext(x: Bytes, kind: nat, rest: Bytes, list: seq<Extension>)
    requires IsExtension(x, kind) && ParseExtensions(rest) == Some(list)
    ensures ParseExtensions(x + rest) == Some([Extension(kind, x[4..])] + list)
  {
    ConstantStep(x, rest);
  }

  function TailList(c: Blocks): seq<Extension>
    requires ValidBlocks(c)
  {
    [Extension(0x0b, c.ec[4..])] + ([Extension(0x0a, c.groups[4..])] + ([Extension(0x0d, c.signature[4..])] +
                                    ([Extension(0x16, c.mac[4..])] + ([Extension(0x17, c.secret[4..])] + []))))
  }

  lemma ParseTail(c: Blocks)
    requires ValidBlocks(c)
    ensures ParseExtensions(c.Tail()) == Some(TailList(c))
  {
    var l5 := [Extension(0x17, c.secret[4..])] + [];
    var l4 := [Extension(0x16, c.mac[4..])] + l5;
    var l3 := [Extension(0x0d, c.signature[4..])] + l4;
    var l2 := [Extension(0x0a, c.groups[4..])] + l3;
    assert c.secret == c.secret + [];
    ConstantNext(c.secret, 0x17, [], []);
    ConstantNext(c.mac, 0x16, c.secret, l5);
    ConstantNext(c.signature, 0x0d, c.mac + c.secret, l4);
    ConstantNext(c.groups, 0x0a, c.signature + (c.mac + c.secret), l3);
    ConstantNext(c.ec, 0x0b, c.groups + (c.signature + (c.mac + c.secret)), l2);
  }

  function NameBody(server: Bytes): Bytes {
    Be16(|server| + 3) + ([0] + (Be16(|server|) + server))
  }

  lemma ParseName(server: Bytes)
    requires |server| + 5 < 0x1_0000
    ensures ParseServerName(NameBody(server)) == if server == [] then None else Some(server)
  {
    var list := [0] + (Be16(|server|) + server);
    assert NameBody(server) == Be16(|list|) + (list + []);
    Vector16Of(list, []);
    assert list[1..] == Be16(|server|) + (server + []);
    Vector16Of(server, []);
  }

  lemma NameShape(server: Bytes, rest: Bytes)
    ensures ServerName(server) + rest == [0x00, 0x00] + (Be16(|NameBody(server)|) + (NameBody(server) + rest))
  {
    var body := NameBody(server);
    Reassociate([0x00, 0x00], Be16(|body|) + body, rest);
    Reassociate(Be16(|body|), body, rest);
  }

  lemma TicketShape(data: Bytes, rest: Bytes)
    ensures Ticket(data) + rest == [0x00, 0x23] + (Be16(|data|) + (data + rest))
  {
    Reassociate([0x00, 0x23], Be16(|data|) + data, rest);
    Reassociate(Be16(|data|), data, rest);
  }

  function AllExtensions(c: Blocks, data: Bytes, server: Bytes): seq<Extension>
    requires ValidBlocks(c)
  {
    [Extension(0x23, data)] + ([Extension(0, NameBody(server))] + TailList(c))
  }

  lemma ParseAll(c: Blocks, data: Bytes, server: Bytes)
    requires ValidBlocks(c)
    requires |data| + |server| + 79 < 0x1_0000
    ensures ParseExtensions(Extensions(c, data, server)) == Some(AllExtensions(c, data, server))
  {
    ParseTail(c);
    NameShape(server, c.Tail());
    ExtensionStep(0x00, 0x00, NameBody(server), c.Tail());
    TicketShape(data, ServerName(server) + c.Tail());
    ExtensionStep(0x00, 0x23, data, ServerName(server) + c.Tail());
  }

  lemma ListStep(x: Extension, rest: seq<Extension>)
    ensures Kinds([x] + rest) == {x.kind} + Kinds(rest)
    ensures Unique([x] + rest) <==> x.kind !in Kinds(rest) && Unique(rest)
    ensures AllWellFormed([x] + rest) <==> WellFormed(x) && AllWellFormed(rest)
    ensures forall k :: Find([x] + rest, k) == if x.kind == k then Some(x.body) else Find(rest, k)
  {
    assert ([x] + rest)[1..] == rest;
  }

  lemma TailFacts(c: Blocks)
    requires ValidBlocks(c)
    ensures Kinds(TailList(c)) == {0x0b, 0x0a, 0x0d, 0x16, 0x17}
    ensures Unique(TailList(c)) && AllWellFormed(TailList(c))
  {
    var l5 := [Extension(0x17, c.secret[4..])] + [];
    var l4 := [Extension(0x16, c.mac[4..])] + l5;
    var l3 := [Extension(0x0d, c.signature[4..])] + l4;
    var l2 := [Extension(0x0a, c.groups[4..])] + l3;
    ListStep(Extension(0x17, c.secret[4..]), []);
    ListStep(Extension(0x16, c.mac[4..]), l5);
    ListStep(Extension(0x0d, c.signature[4..]), l4);
    ListStep(Extension(0x0a, c.groups[4..]), l3);
    ListStep(Extension(0x0b, c.ec[4..]), l2);
  }

  lemma ListFacts(c: Blocks, data: Bytes, server: Bytes)
    requires ValidBlocks(c)
    ensures var xs := AllExtensions(c, data, server);
            && Unique(xs) && AllWellFormed(xs)
            && Find(xs, 0x23) == Some(data) && Find(xs, 0) == Some(NameBody(server))
  {
    TailFacts(c);
    ListStep(Extension(0, NameBody(server)), TailList(c));
    ListStep(Extension(0x23, data), [Extension(0, NameBody(server))] + TailList(c));
  }

  lemma ParseBlock(c: Blocks, b: Bytes, data: Bytes, server: Bytes)
    requires ValidBlocks(c)
    requires |data| + |server| + 79 < 0x1_0000
    requires ParseExtensions(b) == Some(AllExtensions(c, data, server))
    ensures ParseExtensionBlock(b) == if server == [] then None else Some(Extras(data, server))
  {
    ListFacts(c, data, server);
    ParseName(server);
  }

  lemma Vector8Of(n: byte, v: Bytes, rest: Bytes)
    requires |v| == n
    ensures Vector8([n] + (v + rest)) == Some((v, rest))
  {
    var b := [n] + (v + rest);
    assert b[1..1 + n as int] == v;
    assert b[1 + n as int..] == rest;
  }

  lemma SuitesParse(random: Bytes, session: Bytes, suites: Bytes, exts: Bytes)
    requires |suites| == 0x38 && |exts| < 0x1_0000
    ensures ParseSuites(random, session, [0x00, 0x38] + (suites + ([0x01, 0x00] + (Be16(|exts|) + exts)))) ==
            var x := ParseExtensionBlock(exts);
            if x.None? then None else Some(Parsed(random, session, suites, x.value))
  {
    var r := Be16(|exts|) + exts;
    var b := [0x00, 0x38] + (suites + ([0x01, 0x00] + r));
    assert b[2..2 + 0x38] == suites;
    assert b[2 + 0x38..] == [0x01, 0x00] + r;
    assert [0x01, 0x00] + r == [1] + ([0] + r);
    Vector8Of(1, [0], r);
    assert exts + [] == exts;
    Vector16Of(exts, []);
  }

  lemma PrefaceShape(c: Blocks, e: Entropy, rest: Bytes)
    requires e.Valid()
    ensures var x := [0x00, 0x38] + (c.suites + ([0x01, 0x00] + rest));
            var b := Preface(c, e) + rest;
            && |b| >= 34 && b[0] == 3 && b[1] == 3 && b[2..34] == e.time + e.random
            && b[34..] == [32] + (e.session + x)
  {
    var x := [0x00, 0x38] + (c.suites + ([0x01, 0x00] + rest));
    var front := [0x03, 0x03] + (e.time + e.random);
    assert Preface(c, e) == front + ([32] + (e.session + ([0x00, 0x38] + (c.suites + [0x01, 0x00]))));
    assert Preface(c, e) + rest == front + ([32] + (e.session + x));
  }

  lemma BodyParse(c: Blocks, e: Entropy, exts: Bytes)
    requires e.Valid() && |c.suites| == 0x38 && |exts| < 0x1_0000
    ensures ParseBody(Preface(c, e) + (Be16(|exts|) + exts)) ==
            var x := ParseExtensionBlock(exts);
            if x.None? then None else Some(Parsed(e.time + e.random, e.session, c.suites, x.value))
  {
    PrefaceShape(c, e, Be16(|exts|) + exts);
    Vector8Of(32, e.session, [0x00, 0x38] + (c.suites + ([0x01, 0x00] + (Be16(|exts|) + exts))));
    SuitesParse(e.time + e.random, e.session, c.suites, exts);
  }

  lemma HandshakeParse(body: Bytes)
    requires |body| < 0x1_0000
    ensures ParseHandshake([1, 0] + (Be16(|body|) + body)) == ParseBody(body)
  {
    Be16Value(|body|);
    HandshakeShape(Be16(|body|), body);
  }

  lemma HandshakeShape(size: Bytes, body: Bytes)
    requires |size| == 2 && FromBe16(size[0], size[1]) == |body|
    ensures ParseHandshake([1, 0] + (size + body)) == ParseBody(body)
  {
    var b := [1, 0] + (size + body);
    assert b[2] == size[0] && b[3] == size[1];
    assert b[4..] == body;
  }

  lemma RecordParse(message: Bytes, rest: Bytes)
    requires |message| < 0x1_0000
    ensures ParseHello([22, 0x03, 0x01] + (Be16(|message|) + (message + rest))) ==
            var hello := ParseHandshake(message);
            if hello.None? then None else Some((hello.value, rest))
  {
    var b := [22, 0x03, 0x01] + (Be16(|message|) + (message + rest));
    assert b[3..] == Be16(|message|) + (message + rest);
    Vector16Of(message, rest);
  }

  function Body(c: Blocks, data: Bytes, server: Bytes, e: Entropy): Bytes {
    Preface(c, e) + (Be16(79 + |data| + |server|) + Extensions(c, data, server))
  }

  lemma Sizes(c: Blocks, data: Bytes, server: Bytes, e: Entropy)
    requires ValidBlocks(c) && e.Valid()
    ensures |Extensions(c, data, server)| == 79 + |data| + |server|
    ensures |Body(c, data, server, e)| == 208 + |data| + |server|
    ensures |Hello(c, data, server, e)| == 217 + |data| + |server|
  {
  }

  /** What the message is meant to say. */
  function Meant(c: Blocks, data: Bytes, server: Bytes, e: Entropy): Parsed {
    Parsed(e.time + e.random, e.session, c.suites, Extras(data, server))
  }

  /** When the lengths fit their fields, the hello parses back to everything that went into it. */
  lemma HelloParses(c: Blocks, data: Bytes, server: Bytes, e: Entropy, rest: Bytes)
    requires ValidBlocks(c) && e.Valid()
    requires 212 + |data| + |server| < 0x1_0000
    ensures ParseHello(Hello(c, data, server, e) + rest) ==
            if server == [] then None else Some((Meant(c, data, server, e), rest))
  {
    Sizes(c, data, server, e);
    var body, exts := Body(c, data, server, e), Extensions(c, data, server);
    var message := [1, 0] + (Be16(|body|) + body);
    assert Hello(c, data, server, e) + rest == [22, 0x03, 0x01] + (Be16(|message|) + (message + rest)) by {
      Reassociate([22, 0x03, 0x01], Be16(|message|) + message, rest);
      Reassociate(Be16(|message|), message, rest);
    }
    RecordParse(message, rest);
    HandshakeParse(body);
    BodyParse(c, e, exts);
    ParseAll(c, data, server);
    ParseBlock(c, exts, data, server);
  }

  /**
  The hello is accepted, and yields the data as session ticket, the server as host name, the time and
  random bytes, the session id, the suites and the bytes that follow, exactly when the total fits a 16-bit length and the server name is not empty.
  */
  lemma HelloRoundTripIff(c: Blocks, data: Bytes, server: Bytes, e: Entropy, rest: Bytes)
    requires ValidBlocks(c) && e.Valid()
    ensures ParseHello(Hello(c, data, server, e) + rest) == Some((Meant(c, data, server, e), rest))
            <==> 212 + |data| + |server| < 0x1_0000 && server != []
  {
    Sizes(c, data, server, e);
    if 212 + |data| + |server| < 0x1_0000 {
      HelloParses(c, data, server, e, rest);
    }
  }

  /** The constants of the source have the layout the theorems ask for. */
  lemma BlocksAreValid()
    ensures ValidBlocks(BLOCKS)
  {
    ConstantExtensions(BLOCKS.ec, BLOCKS.groups, BLOCKS.signature, BLOCKS.mac, BLOCKS.secret);
    TailSize(BLOCKS);
  }

  predicate Header(x: Bytes, kind: byte, size: byte) {
    |x| == 4 + size && x[0] == 0 && x[1] == kind && x[2] == 0 && x[3] == size
  }

  lemma ConstantExtensions(ec: Bytes, groups: Bytes, signature: Bytes, mac: Bytes, secret: Bytes)
    requires Header(ec, 0x0b, 4) && ec[4] == 3
    requires Header(groups, 0x0a, 10) && groups[4] == 0 && groups[5] == 8
    requires Header(signature, 0x0d, 32) && signature[4] == 0 && signature[5] == 30
    requires Header(mac, 0x16, 0) && Header(secret, 0x17, 0)
    ensures IsExtension(ec, 0x0b) && IsExtension(groups, 0x0a) && IsExtension(signature, 0x0d)
    ensures IsExtension(mac, 0x16) && IsExtension(secret, 0x17)
  {
  }

  lemma TailSize(c: Blocks)
    requires |c.ec| == 8 && |c.groups| == 14 && |c.signature| == 36 && |c.mac| == 4 && |c.secret| == 4
    ensures |c.Tail()| == 66
  {
  }
}
