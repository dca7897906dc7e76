/**
The hand-written JSON printer of the network statistics (restapi/netstats.go) and an independent
JSON parser for objects and non-negative integers (sections 4, 6 and 7 of RFC 8259).
*/
module NetStats {
  import opened Bytes

  /** What `encodeToJSON` walks over: counters, maps of counters, and structs of these. */
  datatype Stat =
    | Counter(value: nat)
    | CounterMap(keys: seq<nat>, counters: map<nat, nat>)
    | Group(fields: seq<Field>)

  datatype Field = Field(name: string, stat: Stat)

  // ---------------------------------------------------------------- what is printed

  function Digit(n: nat): char
    requires n < 10
  {
    '0' + n as char
  }

  /** `strconv.FormatUint(n, 10)`. */
  function Decimal(n: nat): (s: string)
    ensures s != ""
  {
    if n < 10 then [Digit(n)] else Decimal(n / 10) + [Digit(n % 10)]
  }

  function Entry(k: nat, v: nat): string {
    "\"" + (Decimal(k) + ("\":" + Decimal(v)))
  }

  /** One round of the loop over a map: a key without a counter prints nothing, not even its comma. */
  function KeyText(keys: seq<nat>, m: map<nat, nat>, j: nat): string
    requires j < |keys|
  {
    if keys[j] !in m then "" else Entry(keys[j], m[keys[j]]) + if j < |keys| - 1 then "," else ""
  }

  function KeysFrom(keys: seq<nat>, m: map<nat, nat>, j: nat): string
    requires j <= |keys|
    decreases |keys| - j
  {
    if j == |keys| then "" else KeyText(keys, m, j) + KeysFrom(keys, m, j + 1)
  }

  function Render(s: Stat): string
    decreases s, 0
  {
    match s
    case Counter(n) => Decimal(n)
    case CounterMap(keys, m) => "{" + (KeysFrom(keys, m, 0) + "}")
    case Group(fields) => "{" + (FieldsFrom(fields, 0) + "}")
  }

  /** One round of the loop over a struct. */
  function FieldText(fields: seq<Field>, i: nat): string
    requires i < |fields|
    decreases fields, 0, 0
  {
    ("\"" + (fields[i].name + ("\":" + Render(fields[i].stat)))) + if i < |fields| - 1 then "," else ""
  }

  function FieldsFrom(fields: seq<Field>, i: nat): string
    requires i <= |fields|
    decreases fields, 1, |fields| - i
  {
    if i == |fields| then "" else FieldText(fields, i) + FieldsFrom(fields, i + 1)
  }

  // ---------------------------------------------------------------- how it is printed

  class Buffer {
    var text: string

    constructor ()
      ensures text == ""
    {
      text := "";
    }

    method Append(s: string)
      modifies this
      ensures text == old(text) + s
    {
      text := text + s;
    }
  }

  /** `encodeToJSON`: appends a struct to the buffer, field by field. */
  method EncodeToJSON(fields: seq<Field>, b: Buffer)
    modifies b
    ensures b.text == old(b.text) + Render(Group(fields))
    decreases fields, 1
  {
    ghost var all := old(b.text) + ("{" + FieldsFrom(fields, 0));
    b.Append("{");
    Reassociate(old(b.text), "{", FieldsFrom(fields, 0));
    var i := 0;
    while i < |fields|
      invariant 0 <= i <= |fields|
      invariant b.text + FieldsFrom(fields, i) == all
    {
      ghost var t := b.text;
      EncodeField(fields, i, b);
      Reassociate(t, FieldText(fields, i), FieldsFrom(fields, i + 1));
      i := i + 1;
    }
    assert b.text == all;
    b.Append("}");
    Reassociate("{", FieldsFrom(fields, 0), "}");
    Reassociate(old(b.text), "{" + FieldsFrom(fields, 0), "}");
  }

  /** One field: its name, its value and, unless it is the last, a comma. */
  method EncodeField(fields: seq<Field>, i: nat, b: Buffer)
    requires i < |fields|
    modifies b
    ensures b.text == old(b.text) + FieldText(fields, i)
    decreases fields, 0
  {
    var name, stat := fields[i].name, fields[i].stat;
    b.Append("\"" + (name + "\":"));
    match stat {
      case Counter(n) => b.Append(Decimal(n));
      case CounterMap(keys, m) => EncodeMap(keys, m, b);
      case Group(inner) => EncodeToJSON(inner, b);
    }
    b.Append(if i < |fields| - 1 then "," else "");
    FieldShape(old(b.text), name, Render(stat), if i < |fields| - 1 then "," else "");
  }

  lemma FieldShape(t: string, name: string, value: string, comma: string)
    ensures ((t + ("\"" + (name + "\":"))) + value) + comma == t + (("\"" + (name + ("\":" + value))) + comma)
  {
    Reassociate(name, "\":", value);
    Reassociate("\"", name + "\":", value);
    Reassociate(t, "\"" + (name + "\":"), value);
    Reassociate(t, "\"" + (name + ("\":" + value)), comma);
  }

  method EncodeKey(keys: seq<nat>, m: map<nat, nat>, j: nat, b: Buffer)
    requires j < |keys|
    modifies b
    ensures b.text == old(b.text) + KeyText(keys, m, j)
  {
    if keys[j] in m {
      b.Append(Entry(keys[j], m[keys[j]]));
      if j < |keys| - 1 {
        b.Append(",");
      }
    }
  }

  /** The counters of a map, in the order of its keys. */
  method EncodeMap(keys: seq<nat>, m: map<nat, nat>, b: Buffer)
    modifies b
    ensures b.text == old(b.text) + Render(CounterMap(keys, m))
  {
    ghost var all := old(b.text) + ("{" + KeysFrom(keys, m, 0));
    b.Append("{");
    Reassociate(old(b.text), "{", KeysFrom(keys, m, 0));
    var j := 0;
    while j < |keys|
      invariant 0 <= j <= |keys|
      invariant b.text + KeysFrom(keys, m, j) == all
    {
      ghost var t := b.text;
      EncodeKey(keys, m, j, b);
      Reassociate(t, KeyText(keys, m, j), KeysFrom(keys, m, j + 1));
      j := j + 1;
    }
    assert b.text == all;
    b.Append("}");
    Reassociate("{", KeysFrom(keys, m, 0), "}");
    Reassociate(old(b.text), "{" + KeysFrom(keys, m, 0), "}");
  }

  // ---------------------------------------------------------------- an independent parser

  datatype Json = Num(n: nat) | Obj(members: seq<Member>)

  datatype Member = Member(name: string, value: Json)

  predicate IsDigit(c: char) {
    '0' <= c <= '9'
  }

  /** How many digits a text starts with. */
  function DigitRun(s: string): (n: nat)
    ensures n <= |s|
  {
    if s == "" || !IsDigit(s[0]) then 0 else 1 + DigitRun(s[1..])
  }

  function DigitsValue(s: string): nat
    requires forall c <- s :: IsDigit(c)
  {
    if s == "" then 0
    else
      var c := s[|s| - 1];
      assert IsDigit(c);
      10 * DigitsValue(s[..|s| - 1]) + (c as int - '0' as int)
  }

  lemma {:induction false} RunIsDigits(s: string)
    ensures forall c <- s[..DigitRun(s)] :: IsDigit(c)
  {
    if s != "" && IsDigit(s[0]) {
      RunIsDigits(s[1..]);
      assert s[..DigitRun(s)] == [s[0]] + s[1..][..DigitRun(s[1..])];
    }
  }

  /** A number without a leading zero. */
  function ParseNumber(s: string): (r: Option<(Json, string)>)
    ensures r.Some? ==> |r.value.1| < |s|
  {
    var n := DigitRun(s);
    RunIsDigits(s);
    if n == 0 || (n > 1 && s[0] == '0') then None else Some((Num(DigitsValue(s[..n])), s[n..]))
  }

  predicate Plain(c: char) {
    c != '"' && c != '\\' && c >= ' '
  }

  /** The rest of a string up to its closing quote; escapes are not supported. */
  function ParseName(s: string): (r: Option<(string, string)>)
    ensures r.Some? ==> |r.value.1| < |s|
  {
    if s == "" then None
    else if s[0] == '"' then Some(("", s[1..]))
    else if !Plain(s[0]) then None
    else
      var r := ParseName(s[1..]);
      if r.None? then None else Some(([s[0]] + r.value.0, r.value.1))
  }

  function ParseValue(s: string): (r: Option<(Json, string)>)
    ensures r.Some? ==> |r.value.1| < |s|
    decreases |s|, 1
  {
    if s == "" then None
    else if s[0] != '{' then ParseNumber(s)
    else if |s| > 1 && s[1] == '}' then Some((Obj([]), s[2..]))
    else
      var ms := ParseMembers(s[1..]);
      if ms.None? then None else Some((Obj(ms.value.0), ms.value.1))
  }

  /** One or more members separated by commas, and the closing brace. */
  function ParseMembers(s: string): (r: Option<(seq<Member>, string)>)
    ensures r.Some? ==> |r.value.1| < |s|
    decreases |s|, 0
  {
    if s == "" || s[0] != '"' then None
    else
      var name := ParseName(s[1..]);
      if name.None? || name.value.1 == "" || name.value.1[0] != ':' then None
      else
        var v := ParseValue(name.value.1[1..]);
        if v.None? || v.value.1 == "" then None
        else ParseMore(Member(name.value.0, v.value.0), v.value.1)
  }

  function ParseMore(m: Member, s: string): (r: Option<(seq<Member>, string)>)
    requires s != ""
    ensures r.Some? ==> |r.value.1| < |s|
    decreases |s|, 0
  {
    if s[0] == '}' then Some(([m], s[1..]))
    else if s[0] != ',' then None
    else
      var ms := ParseMembers(s[1..]);
      if ms.None? then None else Some(([m] + ms.value.0, ms.value.1))
  }

  /** A whole document. */
  function Parse(s: string): Option<Json> {
    var r := ParseValue(s);
    if r.Some? && r.value.1 == "" then Some(r.value.0) else None
  }

  // ---------------------------------------------------------------- what should come out

  /** The members a map stands for: its keys that have a counter, in order. */
  function Entries(keys: seq<nat>, m: map<nat, nat>, j: nat): seq<Member>
    requires j <= |keys|
    decreases |keys| - j
  {
    if j == |keys| then []
    else if keys[j] in m then [Member(Decimal(keys[j]), Num(m[keys[j]]))] + Entries(keys, m, j + 1)
    else Entries(keys, m, j + 1)
  }

  function Meaning(s: Stat): Json
    decreases s, 0
  {
    match s
    case Counter(n) => Num(n)
    case CounterMap(keys, m) => Obj(Entries(keys, m, 0))
    case Group(fields) => Obj(Members(fields, 0))
  }

  function Members(fields: seq<Field>, i: nat): seq<Member>
    requires i <= |fields|
    decreases fields, 1, |fields| - i
  {
    if i == |fields| then []
    else [Member(fields[i].name, Meaning(fields[i].stat))] + Members(fields, i + 1)
  }

  /** Field names are Go identifiers; all the parser needs is that they have no special characters. */
  ghost predicate Named(s: Stat)
    decreases s
  {
    s.Group? ==> forall i :: 0 <= i < |s.fields| ==> (forall c <- s.fields[i].name :: Plain(c)) && Named(s.fields[i].stat)
  }

  /** The counters behind a map's keys: the last listed key has one, or none has. */
  ghost predicate Complete(s: Stat)
    decreases s
  {
    match s
    case Counter(_) => true
    case CounterMap(keys, m) => (forall k <- keys :: k !in m) || keys[|keys| - 1] in m
    case Group(fields) => forall i :: 0 <= i < |fields| ==> Complete(fields[i].stat)
  }

  // ---------------------------------------------------------------- numbers

  lemma {:induction false} DecimalDigits(n: nat)
    ensures forall c <- Decimal(n) :: IsDigit(c)
    ensures DigitsValue(Decimal(n)) == n
    ensures |Decimal(n)| > 1 ==> Decimal(n)[0] != '0'
    ensures n > 0 ==> Decimal(n)[0] != '0'
  {
    if n >= 10 {
      DecimalDigits(n / 10);
      assert Decimal(n)[..|Decimal(n)| - 1] == Decimal(n / 10);
      assert Decimal(n)[0] == Decimal(n / 10)[0];
    } else {
      assert Decimal(n)[..0] == "";
    }
  }

  lemma {:induction false} RunOf(d: string, rest: string)
    requires forall c <- d :: IsDigit(c)
    requires rest == "" || !IsDigit(rest[0])
    ensures DigitRun(d + rest) == |d|
  {
    if d == "" {
      assert d + rest == rest;
    } else {
      assert (d + rest)[1..] == d[1..] + rest;
      RunOf(d[1..], rest);
    }
  }

  lemma NumberParses(n: nat, rest: string)
    requires rest == "" || !IsDigit(rest[0])
    ensures ParseValue(Decimal(n) + rest) == Some((Num(n), rest))
  {
    var d := Decimal(n);
    DecimalDigits(n);
    RunOf(d, rest);
    assert (d + rest)[..|d|] == d && (d + rest)[|d|..] == rest;
    assert (d + rest)[0] == d[0];
    assert IsDigit(d[0]);
  }

  // ---------------------------------------------------------------- members

  lemma {:induction false} NameParses(name: string, rest: string)
    requires forall c <- name :: Plain(c)
    ensures ParseName(name + ("\"" + rest)) == Some((name, rest))
  {
    var s := name + ("\"" + rest);
    if name == "" {
      assert s == "\"" + rest;
      assert s[1..] == rest;
    } else {
      assert s[0] == name[0] && Plain(name[0]);
      assert s[1..] == name[1..] + ("\"" + rest);
      NameParses(name[1..], rest);
      assert name == [name[0]] + name[1..];
    }
  }

  /** A member: the name, a colon, and whatever the value parser makes of the rest. */
  lemma MemberStep(name: string, text: string)
    requires forall c <- name :: Plain(c)
    ensures ParseMembers("\"" + (name + ("\":" + text))) ==
            var v := ParseValue(text);
            if v.None? || v.value.1 == "" then None else ParseMore(Member(name, v.value.0), v.value.1)
  {
    var s := "\"" + (name + ("\":" + text));
    assert "\":" + text == "\"" + (":" + text);
    assert s[1..] == name + ("\"" + (":" + text));
    NameParses(name, ":" + text);
    assert (":" + text)[1..] == text;
  }

  lemma {:induction false} DecimalPlain(n: nat)
    ensures forall c <- Decimal(n) :: Plain(c)
  {
    DecimalDigits(n);
  }

  /** One entry of a map, followed by anything that is not a digit. */
  lemma EntryParses(k: nat, v: nat, tail: string)
    requires tail != "" && !IsDigit(tail[0])
    ensures ParseMembers(Entry(k, v) + tail) == ParseMore(Member(Decimal(k), Num(v)), tail)
  {
    DecimalPlain(k);
    NumberParses(v, tail);
    EntryShape(Decimal(k), Decimal(v), tail);
    MemberStep(Decimal(k), Decimal(v) + tail);
  }

  lemma EntryShape(name: string, value: string, tail: string)
    ensures ("\"" + (name + ("\":" + value))) + tail == "\"" + (name + ("\":" + (value + tail)))
  {
    Reassociate("\"", name + ("\":" + value), tail);
    Reassociate(name, "\":" + value, tail);
    Reassociate("\":", value, tail);
  }

  ghost predicate SomePresent(keys: seq<nat>, m: map<nat, nat>, j: nat) {
    exists i :: j <= i < |keys| && keys[i] in m
  }

  lemma {:induction false} NonePresent(keys: seq<nat>, m: map<nat, nat>, j: nat)
    requires j <= |keys| && !SomePresent(keys, m, j)
    ensures KeysFrom(keys, m, j) == "" && Entries(keys, m, j) == []
    decreases |keys| - j
  {
    if j < |keys| {
      NonePresent(keys, m, j + 1);
    }
  }

  lemma CommaThen(m: Member, text: string)
    ensures ParseMore(m, "," + text) ==
            var ms := ParseMembers(text);
            if ms.None? then None else Some(([m] + ms.value.0, ms.value.1))
  {
    assert ("," + text)[1..] == text;
  }

  lemma BraceThen(m: Member, rest: string)
    ensures ParseMore(m, "}" + rest) == Some(([m], rest))
    ensures ParseMembers("}" + rest) == None
  {
    assert ("}" + rest)[1..] == rest;
  }

  ghost predicate KeysMean(keys: seq<nat>, m: map<nat, nat>, j: nat, rest: string)
    requires j < |keys|
  {
    ParseMembers(KeysFrom(keys, m, j) + ("}" + rest)) ==
    if keys[|keys| - 1] in m then Some((Entries(keys, m, j), rest)) else None
  }

  lemma LastKey(keys: seq<nat>, m: map<nat, nat>, rest: string)
    requires keys != [] && keys[|keys| - 1] in m
    ensures KeysMean(keys, m, |keys| - 1, rest)
  {
    var j := |keys| - 1;
    var entry, member := Entry(keys[j], m[keys[j]]), Member(Decimal(keys[j]), Num(m[keys[j]]));
    assert KeysFrom(keys, m, j) == entry;
    assert Entries(keys, m, j) == [member];
    EntryParses(keys[j], m[keys[j]], "}" + rest);
    BraceThen(member, rest);
  }

  lemma PresentKey(keys: seq<nat>, m: map<nat, nat>, j: nat, rest: string)
    requires j < |keys| - 1 && keys[j] in m
    requires if SomePresent(keys, m, j + 1) then KeysMean(keys, m, j + 1, rest) else true
    ensures KeysMean(keys, m, j, rest)
  {
    var member := Member(Decimal(keys[j]), Num(m[keys[j]]));
    var tail := KeysFrom(keys, m, j + 1) + ("}" + rest);
    LaterKeys(keys, m, j, rest);
    EntryParses(keys[j], m[keys[j]], "," + tail);
    CommaThen(member, tail);
    if !SomePresent(keys, m, j + 1) {
      NonePresent(keys, m, j + 1);
      assert tail == "}" + rest;
      BraceThen(member, rest);
    }
  }

  /** The body of a map with a counter in it parses exactly if its last listed key has one. */
  lemma {:induction false} KeysParse(keys: seq<nat>, m: map<nat, nat>, j: nat, rest: string)
    requires j < |keys| && SomePresent(keys, m, j)
    ensures KeysMean(keys, m, j, rest)
    decreases |keys| - j
  {
    if keys[j] !in m {
      assert SomePresent(keys, m, j + 1);
      assert KeysFrom(keys, m, j) == KeysFrom(keys, m, j + 1);
      KeysParse(keys, m, j + 1, rest);
    } else if j == |keys| - 1 {
      LastKey(keys, m, rest);
    } else {
      if SomePresent(keys, m, j + 1) {
        KeysParse(keys, m, j + 1, rest);
      }
      PresentKey(keys, m, j, rest);
    }
  }

  lemma LaterKeys(keys: seq<nat>, m: map<nat, nat>, j: nat, rest: string)
    requires j < |keys| - 1 && keys[j] in m
    ensures KeysFrom(keys, m, j) + ("}" + rest) ==
            Entry(keys[j], m[keys[j]]) + ("," + (KeysFrom(keys, m, j + 1) + ("}" + rest)))
  {
    var e, later := Entry(keys[j], m[keys[j]]), KeysFrom(keys, m, j + 1);
    Reassociate(e + ",", later, "}" + rest);
    Reassociate(e, ",", later + ("}" + rest));
  }

  // ---------------------------------------------------------------- the round trip

  /** An object: braces around nothing, or around members. */
  lemma ObjectParses(body: string, rest: string)
    requires body == "" || body[0] == '"'
    ensures ParseValue(("{" + (body + "}")) + rest) ==
            if body == "" then Some((Obj([]), rest))
            else
              var ms := ParseMembers(body + ("}" + rest));
              if ms.None? then None else Some((Obj(ms.value.0), ms.value.1))
  {
    var s := ("{" + (body + "}")) + rest;
    Reassociate("{", body + "}", rest);
    Reassociate(body, "}", rest);
    assert s == "{" + (body + ("}" + rest));
    assert s[1..] == body + ("}" + rest);
    if body == "" {
      assert s[2..] == rest;
    }
  }

  lemma KeysStart(keys: seq<nat>, m: map<nat, nat>, j: nat)
    requires j <= |keys|
    ensures KeysFrom(keys, m, j) == "" || KeysFrom(keys, m, j)[0] == '"'
    ensures j < |keys| && SomePresent(keys, m, j) ==> KeysFrom(keys, m, j) != ""
    decreases |keys| - j
  {
    if j < |keys| {
      KeysStart(keys, m, j + 1);
    }
  }

  lemma MapParses(keys: seq<nat>, m: map<nat, nat>, rest: string)
    ensures ParseValue(Render(CounterMap(keys, m)) + rest) ==
            if Complete(CounterMap(keys, m)) then Some((Meaning(CounterMap(keys, m)), rest)) else None
  {
    KeysStart(keys, m, 0);
    ObjectParses(KeysFrom(keys, m, 0), rest);
    if SomePresent(keys, m, 0) {
      KeysParse(keys, m, 0, rest);
    } else {
      NonePresent(keys, m, 0);
    }
  }

  ghost predicate CompleteFrom(fields: seq<Field>, i: nat) {
    forall j :: i <= j < |fields| ==> Complete(fields[j].stat)
  }

  /** One field and what follows it. */
  lemma FieldStep(fields: seq<Field>, i: nat, rest: string)
    requires i < |fields| && forall c <- fields[i].name :: Plain(c)
    ensures var stat := fields[i].stat;
            var tail := (if i < |fields| - 1 then "," else "") + (FieldsFrom(fields, i + 1) + ("}" + rest));
            && ParseMembers(FieldsFrom(fields, i) + ("}" + rest)) ==
               var v := ParseValue(Render(stat) + tail);
               if v.None? || v.value.1 == "" then None else ParseMore(Member(fields[i].name, v.value.0), v.value.1)
  {
    var name, value := fields[i].name, Render(fields[i].stat);
    var comma := if i < |fields| - 1 then "," else "";
    var later := FieldsFrom(fields, i + 1);
    var head := "\"" + (name + ("\":" + value));
    Reassociate(head + comma, later, "}" + rest);
    Reassociate(head, comma, later + ("}" + rest));
    EntryShape(name, value, comma + (later + ("}" + rest)));
    MemberStep(name, value + (comma + (later + ("}" + rest))));
  }

  ghost predicate FieldsMean(fields: seq<Field>, i: nat, rest: string)
    requires i < |fields|
  {
    ParseMembers(FieldsFrom(fields, i) + ("}" + rest)) ==
    if CompleteFrom(fields, i) then Some((Members(fields, i), rest)) else None
  }

  ghost predicate StatMeans(s: Stat, rest: string) {
    ParseValue(Render(s) + rest) == if Complete(s) then Some((Meaning(s), rest)) else None
  }

  lemma LastField(fields: seq<Field>, rest: string)
    requires fields != [] && forall c <- fields[|fields| - 1].name :: Plain(c)
    requires StatMeans(fields[|fields| - 1].stat, "}" + rest)
    ensures FieldsMean(fields, |fields| - 1, rest)
  {
    var i := |fields| - 1;
    FieldStep(fields, i, rest);
    assert "" + (FieldsFrom(fields, i + 1) + ("}" + rest)) == "}" + rest;
    BraceThen(Member(fields[i].name, Meaning(fields[i].stat)), rest);
    assert Members(fields, i) == [Member(fields[i].name, Meaning(fields[i].stat))];
    assert CompleteFrom(fields, i) <==> Complete(fields[i].stat);
  }

  lemma FieldsStart(fields: seq<Field>)
    requires fields != []
    ensures FieldsFrom(fields, 0) != "" && FieldsFrom(fields, 0)[0] == '"'
  {
    var t := FieldText(fields, 0);
    assert |t| >= 1 && t[0] == '"';
    assert FieldsFrom(fields, 0) == t + FieldsFrom(fields, 1);
  }

  lemma NextField(fields: seq<Field>, i: nat, rest: string)
    requires i < |fields| - 1 && forall c <- fields[i].name :: Plain(c)
    requires StatMeans(fields[i].stat, "," + (FieldsFrom(fields, i + 1) + ("}" + rest)))
    requires FieldsMean(fields, i + 1, rest)
    ensures FieldsMean(fields, i, rest)
  {
    var stat := fields[i].stat;
    FieldStep(fields, i, rest);
    CommaThen(Member(fields[i].name, Meaning(stat)), FieldsFrom(fields, i + 1) + ("}" + rest));
    assert CompleteFrom(fields, i) <==> Complete(stat) && CompleteFrom(fields, i + 1);
  }

  lemma {:induction false} FieldsParse(fields: seq<Field>, i: nat, rest: string)
    requires i < |fields| && Named(Group(fields))
    ensures FieldsMean(fields, i, rest)
    decreases fields, 0, |fields| - i
  {
    if i < |fields| - 1 {
      StatParses(fields[i].stat, "," + (FieldsFrom(fields, i + 1) + ("}" + rest)));
      FieldsParse(fields, i + 1, rest);
      NextField(fields, i, rest);
    } else {
      StatParses(fields[i].stat, "}" + rest);
      LastField(fields, rest);
    }
  }

  /** What the parser makes of any printed value, followed by anything that is not a digit. */
  lemma {:induction false} StatParses(s: Stat, rest: string)
    requires Named(s) && (rest == "" || !IsDigit(rest[0]))
    ensures StatMeans(s, rest)
    decreases s, 1
  {
    match s
    case Counter(n) => NumberParses(n, rest);
    case CounterMap(keys, m) => MapParses(keys, m, rest);
    case Group(fields) =>
      if fields != [] {
        FieldsStart(fields);
        FieldsParse(fields, 0, rest);
      }
      ObjectParses(FieldsFrom(fields, 0), rest);
  }

  /**
  The printed text is a JSON document that means the statistics if in every map the last listed
  key has a counter or none has; otherwise it is not JSON at all.
  */
  lemma PrintsJsonIff(s: Stat)
    requires Named(s)
    ensures Parse(Render(s)) == if Complete(s) then Some(Meaning(s)) else None
  {
    assert Render(s) + "" == Render(s);
    StatParses(s, "");
  }

  /** A map as it is printed. */
  lemma PrintedMap()
    ensures Render(CounterMap([5, 17], map[5 := 3, 17 := 60])) == "{\"5\":3,\"17\":60}"
  {
    var keys, m := [5, 17], map[5 := 3, 17 := 60];
    assert Decimal(1) == "1" && Decimal(17) == "17";
    assert Decimal(6) == "6" && Decimal(60) == "60" && Decimal(5) == "5" && Decimal(3) == "3";
    assert KeysFrom(keys, m, 2) == "" && KeysFrom(keys, m, 1) == "\"17\":60";
  }

  /** A last key without a counter leaves a comma before the closing brace. */
  lemma TrailingComma()
    ensures var s := CounterMap([1, 2], map[1 := 7]);
            Render(s) == "{\"1\":7,}" && Parse(Render(s)) == None
  {
    var keys, m := [1, 2], map[1 := 7];
    assert KeysFrom(keys, m, 2) == "" && KeysFrom(keys, m, 1) == "";
    assert Decimal(1) == "1" && Decimal(7) == "7";
    assert 1 in keys && 1 in m;
    PrintsJsonIff(CounterMap(keys, m));
  }

  /** In particular for maps that hold a counter for every listed key. */
  lemma {:induction false} FullIsComplete(s: Stat)
    requires Full(s)
    ensures Complete(s)
    decreases s
  {
    if s.Group? {
      forall i | 0 <= i < |s.fields| ensures Complete(s.fields[i].stat) {
        FullIsComplete(s.fields[i].stat);
      }
    }
  }

  ghost predicate Full(s: Stat)
    decreases s
  {
    match s
    case Counter(_) => true
    case CounterMap(keys, m) => forall k <- keys :: k in m
    case Group(fields) => forall i :: 0 <= i < |fields| ==> Full(fields[i].stat)
  }
}
