/**
 `mechanism_t`: the properties a socket announces to its peer, and what it learns from the list
 that the peer announces.
 */
module Mechanism {
  import opened Bytes
  import opened Sequences
  import opened Metadata

  // ---------------------------------------------------------------- socket types

  datatype SocketType =
    | Pair | Pub | Sub | Req | Rep | Dealer | Router | Pull | Push | XPub | XSub | Stream
    | Server | Client | Radio | Dish | Gather | Scatter | Dgram      // draft types

  /** `socket_type_string`. */
  function TypeName(t: SocketType): (s: Key)
    ensures |s| <= 7
  {
    match t
    case Pair => [80, 65, 73, 82]              // PAIR
    case Pub => [80, 85, 66]                   // PUB
    case Sub => [83, 85, 66]                   // SUB
    case Req => [82, 69, 81]                   // REQ
    case Rep => [82, 69, 80]                   // REP
    case Dealer => [68, 69, 65, 76, 69, 82]    // DEALER
    case Router => [82, 79, 85, 84, 69, 82]    // ROUTER
    case Pull => [80, 85, 76, 76]              // PULL
    case Push => [80, 85, 83, 72]              // PUSH
    case XPub => [88, 80, 85, 66]              // XPUB
    case XSub => [88, 83, 85, 66]              // XSUB
    case Stream => [83, 84, 82, 69, 65, 77]    // STREAM
    case Server => [83, 69, 82, 86, 69, 82]    // SERVER
    case Client => [67, 76, 73, 69, 78, 84]    // CLIENT
    case Radio => [82, 65, 68, 73, 79]         // RADIO
    case Dish => [68, 73, 83, 72]              // DISH
    case Gather => [71, 65, 84, 72, 69, 82]    // GATHER
    case Scatter => [83, 67, 65, 84, 84, 69, 82] // SCATTER
    case Dgram => [68, 71, 82, 65, 77]         // DGRAM
  }

  /** Different types have different names. */
  lemma TypeNamesDiffer(t: SocketType, u: SocketType)
    ensures TypeName(t) == TypeName(u) <==> t == u
  {
  }

  /** The names of RFC 23/ZMTP, and of the draft types. */
  function NameText(t: SocketType): (s: string)
    ensures forall i :: 0 <= i < |s| ==> s[i] < 128 as char
  {
    match t
    case Pair => "PAIR" case Pub => "PUB" case Sub => "SUB" case Req => "REQ" case Rep => "REP"
    case Dealer => "DEALER" case Router => "ROUTER" case Pull => "PULL" case Push => "PUSH"
    case XPub => "XPUB" case XSub => "XSUB" case Stream => "STREAM"
    case Server => "SERVER" case Client => "CLIENT" case Radio => "RADIO" case Dish => "DISH"
    case Gather => "GATHER" case Scatter => "SCATTER" case Dgram => "DGRAM"
  }

  lemma TypeNamesAsText(t: SocketType)
    ensures TypeName(t) == Text(NameText(t))
  {
  }

  /** `check_socket_type`: may a socket of type `t` talk to a peer that calls itself `name`? */
  predicate CheckSocketType(t: SocketType, name: Key) {
    match t
    case Req => name == TypeName(Rep) || name == TypeName(Router)
    case Rep => name == TypeName(Req) || name == TypeName(Dealer)
    case Dealer => name == TypeName(Rep) || name == TypeName(Dealer) || name == TypeName(Router)
    case Router => name == TypeName(Req) || name == TypeName(Dealer) || name == TypeName(Router)
    case Push => name == TypeName(Pull)
    case Pull => name == TypeName(Push)
    case Pub => name == TypeName(Sub) || name == TypeName(XSub)
    case Sub => name == TypeName(Pub) || name == TypeName(XPub)
    case XPub => name == TypeName(Sub) || name == TypeName(XSub)
    case XSub => name == TypeName(Pub) || name == TypeName(XPub)
    case Pair => name == TypeName(Pair)
    case Server => name == TypeName(Client)
    case Client => name == TypeName(Server)
    case Radio => name == TypeName(Dish)
    case Dish => name == TypeName(Radio)
    case Gather => name == TypeName(Scatter)
    case Scatter => name == TypeName(Gather)
    case Dgram => name == TypeName(Dgram)
    case Stream => false
  }

  /** The combinations of socket types, each listed once. */
  predicate Combination(t: SocketType, u: SocketType) {
    || (t == Req && (u == Rep || u == Router))
    || (t == Rep && u == Dealer)
    || (t == Dealer && (u == Dealer || u == Router))
    || (t == Router && u == Router)
    || (t == Push && u == Pull)
    || (t == Pub && (u == Sub || u == XSub))
    || (t == XPub && (u == Sub || u == XSub))
    || (t == Pair && u == Pair)
    || (t == Server && u == Client)
    || (t == Radio && u == Dish)
    || (t == Gather && u == Scatter)
    || (t == Dgram && u == Dgram)
  }

  predicate Compatible(t: SocketType, u: SocketType) {
    Combination(t, u) || Combination(u, t)
  }

  lemma CheckIsCompatible(t: SocketType, u: SocketType)
    ensures CheckSocketType(t, TypeName(u)) <==> Compatible(t, u)
  {
    CheckRequests(t, u);
    CheckBroadcasts(t, u);
    CheckPairs(t, u);
    CheckDrafts(t, u);
    CheckOtherDrafts(t, u);
    CheckDatagrams(t, u);
  }

  lemma CheckRequests(t: SocketType, u: SocketType)
    ensures t == Req || t == Rep || t == Dealer || t == Router ==>
              (CheckSocketType(t, TypeName(u)) <==> Compatible(t, u))
  {
    TypeNamesDiffer(u, Req);
    TypeNamesDiffer(u, Rep);
    TypeNamesDiffer(u, Dealer);
    TypeNamesDiffer(u, Router);
  }

  lemma CheckBroadcasts(t: SocketType, u: SocketType)
    ensures t == Pub || t == Sub || t == XPub || t == XSub ==> (CheckSocketType(t, TypeName(u)) <==> Compatible(t, u))
  {
    TypeNamesDiffer(u, Pub);
    TypeNamesDiffer(u, Sub);
    TypeNamesDiffer(u, XPub);
    TypeNamesDiffer(u, XSub);
  }

  lemma CheckPairs(t: SocketType, u: SocketType)
    ensures t == Push || t == Pull || t == Pair || t == Stream ==>
            (CheckSocketType(t, TypeName(u)) <==> Compatible(t, u))
  {
    TypeNamesDiffer(u, Push);
    TypeNamesDiffer(u, Pull);
    TypeNamesDiffer(u, Pair);
  }

  lemma CheckDrafts(t: SocketType, u: SocketType)
    ensures t.Server? || t.Client? || t.Radio? || t.Dish? ==> (CheckSocketType(t, TypeName(u)) <==> Compatible(t, u))
  {
    TypeNamesDiffer(u, Server);
    TypeNamesDiffer(u, Client);
    TypeNamesDiffer(u, Radio);
    TypeNamesDiffer(u, Dish);
  }

  lemma CheckOtherDrafts(t: SocketType, u: SocketType)
    ensures t.Gather? || t.Scatter? ==> (CheckSocketType(t, TypeName(u)) <==> Compatible(t, u))
  {
    TypeNamesDiffer(u, Gather);
    TypeNamesDiffer(u, Scatter);
  }

  lemma CheckDatagrams(t: SocketType, u: SocketType)
    ensures t.Dgram? ==> (CheckSocketType(t, TypeName(u)) <==> Compatible(t, u))
  {
    TypeNamesDiffer(u, Dgram);
  }

  /** The name is that of a type with which `t` may be combined. */
  ghost predicate NamesPartner(t: SocketType, name: Key) {
    exists u :: name == TypeName(u) && Compatible(t, u)
  }

  /** A name is accepted exactly if it is that of such a type; any other name is refused. */
  lemma CheckAcceptsExactly(t: SocketType, name: Key)
    ensures CheckSocketType(t, name) <==> NamesPartner(t, name)
  {
    if CheckSocketType(t, name) { CheckedIsNamed(t, name); }
    if NamesPartner(t, name) {
      var u :| name == TypeName(u) && Compatible(t, u);
      CheckIsCompatible(t, u);
    }
  }

  lemma CheckedIsNamed(t: SocketType, name: Key)
    requires CheckSocketType(t, name)
    ensures NamesPartner(t, name)
  {
    var u := Checked(t, name);
    CheckIsCompatible(t, u);
    assert name == TypeName(u) && Compatible(t, u);
  }

  lemma Checked(t: SocketType, name: Key) returns (u: SocketType)
    requires CheckSocketType(t, name)
    ensures name == TypeName(u)
  {
    u :| name == TypeName(u);
  }

  // ---------------------------------------------------------------- what a socket announces

  const SocketTypeName: Key := [83, 111, 99, 107, 101, 116, 45, 84, 121, 112, 101]  // Socket-Type
  const IdentityName: Key := [73, 100, 101, 110, 116, 105, 116, 121]                    // Identity

  lemma WireNames()
    ensures SocketTypeName == Text("Socket-Type") && IdentityName == Text("Identity") && SocketTypeName != IdentityName
  {
    assert SocketTypeName[0] != IdentityName[0];
  }

  datatype Options = Options(socketType: SocketType, routingId: Key, recvRoutingId: bool, metadata: seq<Property>)

  /** What `setsockopt` lets through: application names start with "X-" and are stored once, in a map. */
  ghost predicate ValidOptions(o: Options) {
    && |o.routingId| <= 255
    && (forall p :: p in o.metadata ==> Encodable(p) && |p.name| >= 2 && p.name[0] == 88 && p.name[1] == 45)
    && Distinct(Names(o.metadata))
  }

  predicate SendsIdentity(t: SocketType) {
    t == Req || t == Dealer || t == Router
  }

  /** The properties in the order in which they are written. */
  function Properties(o: Options): seq<Property> {
    [Property(SocketTypeName, TypeName(o.socketType))]
    + (if SendsIdentity(o.socketType) then [Property(IdentityName, o.routingId)] else [])
    + o.metadata
  }

  lemma PropertiesEncodable(o: Options)
    requires ValidOptions(o)
    ensures AllEncodable(Properties(o))
  {
  }

  // ---------------------------------------------------------------- writing the list

  /** `memcpy` to the place behind what is already written. */
  method Append(buf: array<Byte>, at: nat, s: seq<Byte>) returns (end: nat)
    requires at + |s| <= buf.Length
    modifies buf
    ensures end == at + |s| && buf[..end] == old(buf[..at]) + s
  {
    var i := 0;
    while i < |s|
      invariant i <= |s| && buf[..at + i] == old(buf[..at]) + s[..i]
    {
      buf[at + i] := s[i];
      i := i + 1;
    }
    end := at + |s|;
    assert s[..|s|] == s;
  }

  /** Writes one property at `at`; `capacity` is what is left of the buffer. */
  method AddProperty(buf: array<Byte>, at: nat, capacity: nat, p: Property) returns (n: nat)
    requires Encodable(p) && PropertyLen(|p.name|, |p.value|) <= capacity && at + capacity <= buf.Length
    modifies buf
    ensures n == PropertyLen(|p.name|, |p.value|)
    ensures buf[..at + n] == old(buf[..at]) + Encode(p)
  {
    n := PropertyLen(|p.name|, |p.value|);
    ghost var before := buf[..at];
    var end := Append(buf, at, [|p.name|]);
    end := Append(buf, end, p.name);
    end := Append(buf, end, PutU32(|p.value|));
    end := Append(buf, end, p.value);
    Joined(before, [|p.name|], p.name, PutU32(|p.value|), p.value);
  }

  lemma Joined(s: seq<Byte>, a: seq<Byte>, b: seq<Byte>, c: seq<Byte>, d: seq<Byte>)
    ensures s + a + b + c + d == s + (a + b + c + d)
  {
  }

  /** The lengths of the properties together. */
  function TotalLen(ps: seq<Property>): nat {
    if ps == [] then 0 else TotalLen(ps[..|ps| - 1]) + PropertyLen(|ps[|ps| - 1].name|, |ps[|ps| - 1].value|)
  }

  lemma TotalLenAppend(ps: seq<Property>, p: Property)
    ensures TotalLen(ps + [p]) == TotalLen(ps) + PropertyLen(|p.name|, |p.value|)
  {
    assert (ps + [p])[..|ps|] == ps;
  }

  lemma {:induction false} TotalLenIs(ps: seq<Property>)
    requires AllEncodable(ps)
    ensures |EncodeAll(ps)| == TotalLen(ps)
  {
    if ps != [] {
      var front, last := ps[..|ps| - 1], ps[|ps| - 1];
      TotalLenIs(front);
      EncodeAppend(front, last);
      assert ps == front + [last];
    }
  }

  lemma {:induction false} TotalLenConcat(ps: seq<Property>, qs: seq<Property>)
    ensures TotalLen(ps + qs) == TotalLen(ps) + TotalLen(qs)
  {
    if qs == [] {
      assert ps + qs == ps;
    } else {
      TotalLenConcat(ps, qs[..|qs| - 1]);
      assert (ps + qs)[..|ps + qs| - 1] == ps + qs[..|qs| - 1];
    }
  }

  lemma {:induction false} TotalLenPrefix(ps: seq<Property>, n: nat)
    requires n <= |ps|
    ensures TotalLen(ps[..n]) <= TotalLen(ps)
    decreases |ps|
  {
    if n < |ps| {
      TotalLenPrefix(ps[..|ps| - 1], n);
      assert ps[..|ps| - 1][..n] == ps[..n];
    } else {
      assert ps[..n] == ps;
    }
  }

  /** What a socket announces first. */
  function Fixed(o: Options): seq<Property> {
    [Property(SocketTypeName, TypeName(o.socketType))]
    + (if SendsIdentity(o.socketType) then [Property(IdentityName, o.routingId)] else [])
  }

  method BasicPropertiesLen(o: Options) returns (n: nat)
    requires ValidOptions(o)
    ensures n == |EncodeAllOf(o)|
  {
    var meta := 0;
    var i := 0;
    while i < |o.metadata|
      invariant i <= |o.metadata| && meta == TotalLen(o.metadata[..i])
    {
      TotalLenAppend(o.metadata[..i], o.metadata[i]);
      assert o.metadata[..i + 1] == o.metadata[..i] + [o.metadata[i]];
      meta := meta + PropertyLen(|o.metadata[i].name|, |o.metadata[i].value|);
      i := i + 1;
    }
    assert o.metadata[..i] == o.metadata;
    n := PropertyLen(|SocketTypeName|, |TypeName(o.socketType)|) + meta
       + if SendsIdentity(o.socketType) then PropertyLen(|IdentityName|, |o.routingId|) else 0;
    TotalLenConcat(Fixed(o), o.metadata);
    FixedLen(o);
    PropertiesEncodable(o);
    TotalLenIs(Properties(o));
  }

  lemma FixedLen(o: Options)
    ensures TotalLen(Fixed(o)) == PropertyLen(|SocketTypeName|, |TypeName(o.socketType)|)
              + if SendsIdentity(o.socketType) then PropertyLen(|IdentityName|, |o.routingId|) else 0
  {
    var p, q := Property(SocketTypeName, TypeName(o.socketType)), Property(IdentityName, o.routingId);
    TotalLenAppend([], p);
    TotalLenAppend([p], q);
    assert [] + [p] == [p] && [p] + [] == [p];
  }

  function EncodeAllOf(o: Options): seq<Byte>
    requires ValidOptions(o)
  {
    PropertiesEncodable(o);
    EncodeAll(Properties(o))
  }

  /**
   Writes the whole list behind what is already in the buffer. There is room for every property,
   because the capacity is what `basic_properties_len` returns.
   */
  method AddBasicProperties(buf: array<Byte>, start: nat, capacity: nat, o: Options) returns (n: nat)
    requires ValidOptions(o) && capacity == |EncodeAllOf(o)| && start + capacity <= buf.Length
    modifies buf
    ensures n == capacity && buf[..start + n] == old(buf[..start]) + EncodeAllOf(o)
  {
    ghost var before := buf[..start];
    Announces(o);
    var at := AddFixed(buf, start, capacity, o, before);
    at := AddMetadata(buf, start, at, capacity, o, Properties(o), |Fixed(o)|, before);
    WrittenAll(buf[..], start, at, o, before);
    n := at - start;
    assert buf[..][..at] == buf[..at];
  }

  lemma Announces(o: Options)
    requires ValidOptions(o)
    ensures AllEncodable(Properties(o)) && |EncodeAllOf(o)| == TotalLen(Properties(o))
    ensures |Fixed(o)| <= |Properties(o)| && Properties(o)[|Fixed(o)|..] == o.metadata
  {
    PropertiesEncodable(o);
    TotalLenIs(Properties(o));
    assert Properties(o) == Fixed(o) + o.metadata;
  }

  method AddMetadata(buf: array<Byte>, start: nat, at0: nat, capacity: nat, o: Options,
                     ghost ps: seq<Property>, ghost k: nat, ghost before: seq<Byte>) returns (at: nat)
    requires AllEncodable(ps) && k <= |ps| && ps[k..] == o.metadata && capacity == TotalLen(ps)
             && start + capacity <= buf.Length
    requires Written(buf[..], start, at0, ps, k, before)
    modifies buf
    ensures Written(buf[..], start, at, ps, |ps|, before)
  {
    var i := 0;
    at := at0;
    while i < |o.metadata|
      invariant 0 <= i <= |o.metadata| && Written(buf[..], start, at, ps, k + i, before)
    {
      assert ps[k + i] == ps[k..][i];
      at := AddNext(buf, start, at, capacity, o.metadata[i], ps, k + i, before);
      i := i + 1;
    }
  }

  method AddFixed(buf: array<Byte>, start: nat, capacity: nat, o: Options, ghost before: seq<Byte>) returns (at: nat)
    requires ValidOptions(o) && AllEncodable(Properties(o)) && capacity == TotalLen(Properties(o))
    requires start + capacity <= buf.Length && before == buf[..start]
    modifies buf
    ensures Written(buf[..], start, at, Properties(o), |Fixed(o)|, before)
  {
    ghost var ps := Properties(o);
    assert ps[..0] == [] && buf[..][..start] == before + [];
    at := AddNext(buf, start, start, capacity, Property(SocketTypeName, TypeName(o.socketType)), ps, 0, before);
    if SendsIdentity(o.socketType) {
      at := AddNext(buf, start, at, capacity, Property(IdentityName, o.routingId), ps, 1, before);
    }
  }

  lemma WrittenAll(d: seq<Byte>, start: nat, at: nat, o: Options, before: seq<Byte>)
    requires ValidOptions(o) && AllEncodable(Properties(o))
    requires Written(d, start, at, Properties(o), |Properties(o)|, before)
    ensures at == start + |EncodeAllOf(o)| && at <= |d| && d[..at] == before + EncodeAllOf(o)
  {
    Announces(o);
    assert Properties(o)[..|Properties(o)|] == Properties(o);
  }

  /** The buffer holds the first `k` properties. */
  ghost predicate Written(d: seq<Byte>, start: nat, at: nat, ps: seq<Property>, k: nat, before: seq<Byte>)
    requires AllEncodable(ps)
  {
    && k <= |ps| && at <= |d| && at == start + TotalLen(ps[..k])
    && AllEncodable(ps[..k]) && d[..at] == before + EncodeAll(ps[..k])
  }

  method AddNext(buf: array<Byte>, start: nat, at: nat, capacity: nat, p: Property,
                 ghost ps: seq<Property>, ghost k: nat, ghost before: seq<Byte>) returns (end: nat)
    requires AllEncodable(ps) && k < |ps| && p == ps[k] && Written(buf[..], start, at, ps, k, before)
    requires capacity == TotalLen(ps) && start + capacity <= buf.Length
    modifies buf
    ensures Written(buf[..], start, end, ps, k + 1, before)
  {
    RoomFor(ps, k);
    ghost var d := buf[..];
    assert d[..at] == buf[..at];
    var n := AddProperty(buf, at, capacity - (at - start), p);
    end := at + n;
    assert buf[..][..end] == buf[..end];
    WrittenNext(d, buf[..], start, at, ps, k, before);
  }

  lemma RoomFor(ps: seq<Property>, k: nat)
    requires k < |ps|
    ensures TotalLen(ps[..k]) + PropertyLen(|ps[k].name|, |ps[k].value|) == TotalLen(ps[..k + 1]) <= TotalLen(ps)
  {
    assert ps[..k + 1] == ps[..k] + [ps[k]];
    TotalLenAppend(ps[..k], ps[k]);
    TotalLenPrefix(ps, k + 1);
  }

  lemma WrittenNext(d: seq<Byte>, d': seq<Byte>, start: nat, at: nat, ps: seq<Property>, k: nat, before: seq<Byte>)
    requires AllEncodable(ps) && k < |ps| && Written(d, start, at, ps, k, before)
    requires var end := at + PropertyLen(|ps[k].name|, |ps[k].value|);
             end <= |d'| && ShortName(ps[k]) && d'[..end] == d[..at] + Encode(ps[k])
    ensures Written(d', start, at + PropertyLen(|ps[k].name|, |ps[k].value|), ps, k + 1, before)
  {
    RoomFor(ps, k);
    EncodeAppend(ps[..k], ps[k]);
    assert ps[..k + 1] == ps[..k] + [ps[k]];
  }

  /** `make_command_with_basic_properties`: the prefix and the list fill the message exactly. */
  method MakeCommand(prefix: seq<Byte>, o: Options) returns (data: seq<Byte>)
    requires ValidOptions(o)
    ensures data == prefix + EncodeAllOf(o)
  {
    var len := BasicPropertiesLen(o);
    var buf := new Byte[|prefix| + len];
    var at := Append(buf, 0, prefix);
    assert buf[..at] == prefix;
    var n := AddBasicProperties(buf, at, |prefix| + len - at, o);
    data := buf[..];
    assert data == buf[..at + n];
  }

  // ---------------------------------------------------------------- reading the list of the peer

  /** What is known of the peer. */
  datatype Peer = Peer(props: map<Key, Key>, routingId: Key)

  predicate Acceptable(o: Options, p: Property) {
    (p.name == IdentityName && o.recvRoutingId) || p.name != SocketTypeName || CheckSocketType(o.socketType, p.value)
  }

  /** The first value of a name stays. */
  function Learn(o: Options, peer: Peer, p: Property): Peer {
    Peer(if p.name in peer.props then peer.props else peer.props[p.name := p.value],
         if p.name == IdentityName && o.recvRoutingId then p.value else peer.routingId)
  }

  /** Goes through the list up to the first property that is refused. */
  function LearnAll(o: Options, peer: Peer, ps: seq<Property>): (Peer, bool)
    decreases |ps|
  {
    if ps == [] then (peer, true)
    else if !Acceptable(o, ps[0]) then (peer, false)
    else LearnAll(o, Learn(o, peer, ps[0]), ps[1..])
  }

  /** One turn of the loop of `parse_metadata`, up to the point where the property is complete or the loop is left. */
  method ReadProperty(data: seq<Byte>, start: nat, bytes: nat) returns (whole: bool, p: Property, at: nat, left: nat)
    requires bytes > 1 && start + bytes == |data|
    ensures whole == StartsProperty(data[start..])
    ensures whole ==>
            p == FirstProperty(data[start..]) && at == start + PropertyLen(|p.name|, |p.value|) && at + left == |data|
    ensures whole ==> data[at..] == data[start..][PropertyLen(|p.name|, |p.value|)..]
    ensures !whole ==> left == Remaining(data[start..])
  {
    ghost var d := data[start..];
    p := Property([], []);
    var nameLength: int := data[start];
    at, left := start + 1, bytes - 1;
    if left < nameLength { return false, p, at, left; }
    var name := data[at..at + nameLength];
    assert name == d[1..1 + nameLength];
    at, left := at + nameLength, left - nameLength;
    if left < 4 { return false, p, at, left; }
    assert data[at..at + 4] == d[1 + nameLength..5 + nameLength];
    var valueLength := GetU32(data[at..at + 4]);
    at, left := at + 4, left - 4;
    if left < valueLength { return false, p, at, left; }
    p := Property(name, data[at..at + valueLength]);
    assert p.value == d[5 + nameLength..5 + nameLength + valueLength];
    at, left := at + valueLength, left - valueLength;
    whole := true;
  }

  /** Going on from `rest` with what is known now comes to the same as the whole list. */
  ghost predicate Continues(o: Options, before: Peer, data: seq<Byte>, now: Peer, rest: seq<Byte>) {
    && LearnAll(o, now, Split(rest).props) == LearnAll(o, before, Split(data).props)
    && Split(rest).rest == Split(data).rest
  }

  lemma TakesProperty(o: Options, before: Peer, data: seq<Byte>, now: Peer, rest: seq<Byte>)
    requires Continues(o, before, data, now, rest) && StartsProperty(rest)
    ensures var p := FirstProperty(rest);
            if Acceptable(o, p)
            then Continues(o, before, data, Learn(o, now, p), rest[PropertyLen(|p.name|, |p.value|)..])
            else LearnAll(o, before, Split(data).props) == (now, false)
  {
    var p := FirstProperty(rest);
    var more := Split(rest[PropertyLen(|p.name|, |p.value|)..]);
    assert Split(rest).props == [p] + more.props && ([p] + more.props)[1..] == more.props;
  }

  lemma StopsAt(o: Options, before: Peer, data: seq<Byte>, now: Peer, rest: seq<Byte>)
    requires Continues(o, before, data, now, rest)
    ensures !StartsProperty(rest) ==> LearnAll(o, before, Split(data).props) == (now, true) && Split(data).rest == rest
  {
  }

  datatype Rc = Success | Invalid | ProtocolError

  class Mechanism {
    const options: Options
    var zmtpProperties: map<Key, Key>
    var zapProperties: map<Key, Key>
    var routingId: Key

    constructor (o: Options)
      ensures options == o && zmtpProperties == map[] && zapProperties == map[] && routingId == []
    {
      options, zmtpProperties, zapProperties, routingId := o, map[], map[], [];
    }

    ghost function View(zap: bool): Peer
      reads this
    {
      Peer(if zap then zapProperties else zmtpProperties, routingId)
    }

    /** `parse_metadata`; `zap` tells which of the two maps is filled. */
    method ParseMetadata(data: seq<Byte>, zap: bool) returns (rc: Rc)
      modifies this
      ensures var (peer, ok) := LearnAll(options, old(View(zap)), Split(data).props);
              && View(zap) == peer
              && rc == if !ok then Invalid else if Remaining(Split(data).rest) > 0 then ProtocolError else Success
      ensures rc == Invalid <==> !TypesFit(options.socketType, Split(data).props)
      ensures if zap then zmtpProperties == old(zmtpProperties) else zapProperties == old(zapProperties)
    {
      var at: nat, left: nat := 0, |data|;
      assert data[0..] == data;
      LearnAllAcceptsExactly(options, View(zap), Split(data).props);
      while left > 1
        invariant at + left == |data|
        invariant Continues(options, old(View(zap)), data, View(zap), data[at..])
        invariant if zap then zmtpProperties == old(zmtpProperties) else zapProperties == old(zapProperties)
        decreases left
      {
        var whole, p, next, remaining := ReadProperty(data, at, left);
        if !whole {
          left := remaining;
          break;
        }
        TakesProperty(options, old(View(zap)), data, View(zap), data[at..]);
        var ok := TakeProperty(zap, p);
        if !ok { return Invalid; }
        at, left := next, remaining;
      }
      StopsAt(options, old(View(zap)), data, View(zap), data[at..]);
      rc := if left > 0 then ProtocolError else Success;
    }

    method TakeProperty(zap: bool, p: Property) returns (ok: bool)
      modifies this
      ensures ok == Acceptable(options, p)
      ensures View(zap) == if ok then Learn(options, old(View(zap)), p) else old(View(zap))
      ensures if zap then zmtpProperties == old(zmtpProperties) else zapProperties == old(zapProperties)
    {
      if p.name == IdentityName && options.recvRoutingId {
        routingId := p.value;
      } else if p.name == SocketTypeName {
        if !CheckSocketType(options.socketType, p.value) { return false; }
      }
      Insert(zap, p);
      return true;
    }

    /** `emplace` does not overwrite. */
    method Insert(zap: bool, p: Property)
      modifies this`zmtpProperties, this`zapProperties
      ensures View(zap).props == if p.name in old(View(zap)).props then old(View(zap)).props
                                 else old(View(zap)).props[p.name := p.value]
      ensures if zap then zmtpProperties == old(zmtpProperties) else zapProperties == old(zapProperties)
    {
      if zap {
        if p.name !in zapProperties { zapProperties := zapProperties[p.name := p.value]; }
      } else {
        if p.name !in zmtpProperties { zmtpProperties := zmtpProperties[p.name := p.value]; }
      }
    }
  }

  // ---------------------------------------------------------------- two sockets

  const Stranger := Peer(map[], [])

  /** `parse_metadata` succeeds on `data` for a socket that knows nothing of its peer yet. */
  ghost predicate Accepts(o: Options, data: seq<Byte>) {
    LearnAll(o, Stranger, Split(data).props).1 && Remaining(Split(data).rest) == 0
  }

  /** What the peer said under each name. */
  ghost predicate Knows(peer: Peer, ps: seq<Property>) {
    && (forall p :: p in ps ==> p.name in peer.props && peer.props[p.name] == p.value)
    && (forall n :: n in peer.props ==> exists p :: p in ps && p.name == n)
  }

  function Names(ps: seq<Property>): (names: seq<Key>)
    ensures |names| == |ps| && forall i :: 0 <= i < |ps| ==> names[i] == ps[i].name
  {
    seq(|ps|, i requires 0 <= i < |ps| => ps[i].name)
  }

  lemma {:induction false} LearnsAll(o: Options, peer: Peer, seen: seq<Property>, ps: seq<Property>)
    requires Knows(peer, seen) && Distinct(Names(seen + ps))
    requires forall p :: p in ps ==> Acceptable(o, p)
    ensures LearnAll(o, peer, ps).1 && Knows(LearnAll(o, peer, ps).0, seen + ps)
    decreases |ps|
  {
    if ps == [] {
      assert seen + ps == seen;
    } else {
      assert [ps[0]] + ps[1..] == ps;
      LearnsOne(o, peer, seen, ps[0], ps[1..]);
      assert seen + [ps[0]] + ps[1..] == seen + ps;
      LearnsAll(o, Learn(o, peer, ps[0]), seen + [ps[0]], ps[1..]);
    }
  }

  lemma LearnsOne(o: Options, peer: Peer, seen: seq<Property>, p: Property, rest: seq<Property>)
    requires Knows(peer, seen) && Distinct(Names(seen + ([p] + rest)))
    ensures Knows(Learn(o, peer, p), seen + [p])
  {
    var all := seen + ([p] + rest);
    assert all[|seen|] == p && Names(all)[|seen|] == p.name;
    forall x | x in seen ensures x.name != p.name {
      var i :| 0 <= i < |seen| && seen[i] == x;
      assert all[i] == x && Names(all)[i] == x.name;
    }
    var now := Learn(o, peer, p);
    forall n | n in now.props ensures exists x :: x in seen + [p] && x.name == n {
      if n == p.name { assert p in seen + [p]; } else { var x :| x in seen && x.name == n; assert x in seen + [p]; }
    }
  }

  lemma {:induction false} RefusesOne(o: Options, peer: Peer, ps: seq<Property>)
    ensures LearnAll(o, peer, ps).1 <==> forall p :: p in ps ==> Acceptable(o, p)
    decreases |ps|
  {
    if ps != [] {
      RefusesOne(o, Learn(o, peer, ps[0]), ps[1..]);
      assert forall p :: p in ps ==> p == ps[0] || p in ps[1..];
    }
  }

  /** The list names no socket type that this socket may not talk to. */
  ghost predicate TypesFit(t: SocketType, ps: seq<Property>) {
    forall p :: p in ps && p.name == SocketTypeName ==> NamesPartner(t, p.value)
  }

  /** Every property is accepted except one that names an unfit socket type. */
  lemma LearnAllAcceptsExactly(o: Options, peer: Peer, ps: seq<Property>)
    ensures LearnAll(o, peer, ps).1 <==> TypesFit(o.socketType, ps)
  {
    RefusesOne(o, peer, ps);
    WireNames();
    forall p | p in ps
      ensures Acceptable(o, p) <==> (p.name == SocketTypeName ==> NamesPartner(o.socketType, p.value))
    {
      CheckAcceptsExactly(o.socketType, p.value);
    }
  }

  /** When a property is refused, those before it have been taken, and none from there on. */
  lemma {:induction false} RefusalKeepsTheRest(o: Options, peer: Peer, ps: seq<Property>, k: nat)
    requires k < |ps| && TypesFit(o.socketType, ps[..k]) && !TypesFit(o.socketType, [ps[k]])
    ensures LearnAll(o, peer, ps) == (LearnAll(o, peer, ps[..k]).0, false)
    decreases k
  {
    CheckAcceptsExactly(o.socketType, ps[0].value);
    WireNames();
    if k > 0 {
      assert ps[0] in ps[..k] && ps[..k][1..] == ps[1..][..k - 1];
      RefusalKeepsTheRest(o, Learn(o, peer, ps[0]), ps[1..], k - 1);
    }
  }

  /** The first place of a name in a list, or its length. */
  function FirstOf(ps: seq<Property>, n: Key): (i: nat)
    ensures i <= |ps| && (i < |ps| ==> ps[i].name == n) && forall j :: 0 <= j < i ==> ps[j].name != n
  {
    if ps == [] || ps[0].name == n then 0 else 1 + FirstOf(ps[1..], n)
  }

  /** The last place of a name in a list, if there is one. */
  function LastOf(ps: seq<Property>, n: Key): (i: int)
    ensures -1 <= i < |ps| && (i >= 0 ==> ps[i].name == n) && forall j :: i < j < |ps| ==> ps[j].name != n
  {
    if ps == [] then -1 else if ps[|ps| - 1].name == n then |ps| - 1 else LastOf(ps[..|ps| - 1], n)
  }

  /**
   What is known after a list that was accepted: the first value under every name, unless something
   was known under that name before, and the last routing id if the socket asked for it.
   */
  lemma {:induction false} LearnsExactly(o: Options, peer: Peer, ps: seq<Property>)
    requires LearnAll(o, peer, ps).1
    ensures var now := LearnAll(o, peer, ps).0;
            && (forall n :: n in now.props <==> n in peer.props || exists p :: p in ps && p.name == n)
            && (forall n :: n in now.props ==>
                  now.props[n] == if n in peer.props then peer.props[n] else ps[FirstOf(ps, n)].value)
    decreases |ps|
  {
    if ps != [] {
      LearnsExactly(o, Learn(o, peer, ps[0]), ps[1..]);
      assert forall p :: p in ps <==> p == ps[0] || p in ps[1..];
    }
  }

  lemma {:induction false} LearnsLastRoutingId(o: Options, peer: Peer, ps: seq<Property>)
    requires LearnAll(o, peer, ps).1
    ensures var now, i := LearnAll(o, peer, ps).0, LastOf(ps, IdentityName);
            now.routingId == if o.recvRoutingId && i >= 0 then ps[i].value else peer.routingId
    decreases |ps|
  {
    if ps != [] {
      LearnsLastRoutingId(o, Learn(o, peer, ps[0]), ps[1..]);
      var i := LastOf(ps[1..], IdentityName);
      assert i >= 0 ==> ps[1..][i] == ps[i + 1];
      LastIs(ps, IdentityName, if i >= 0 then i + 1 else if ps[0].name == IdentityName then 0 else -1);
    }
  }

  lemma LastIs(ps: seq<Property>, n: Key, i: int)
    requires -1 <= i < |ps| && (i >= 0 ==> ps[i].name == n) && forall j :: i < j < |ps| ==> ps[j].name != n
    ensures LastOf(ps, n) == i
  {
  }

  lemma {:induction false} LearnsRoutingId(o: Options, peer: Peer, ps: seq<Property>)
    requires forall p :: p in ps ==> p.name != IdentityName
    ensures LearnAll(o, peer, ps).0.routingId == peer.routingId
    decreases |ps|
  {
    if ps != [] && Acceptable(o, ps[0]) { LearnsRoutingId(o, Learn(o, peer, ps[0]), ps[1..]); }
  }

  lemma PropertiesDistinct(o: Options)
    requires ValidOptions(o)
    ensures Distinct(Names(Properties(o)))
    ensures forall p :: p in o.metadata ==> p.name != SocketTypeName && p.name != IdentityName
  {
    forall p | p in o.metadata ensures p.name != SocketTypeName && p.name != IdentityName {
      assert p.name[0] == 88 && SocketTypeName[0] == 83 && IdentityName[0] == 73;
    }
    assert SocketTypeName[0] == 83 && IdentityName[0] == 73;
    assert Properties(o) == Fixed(o) + o.metadata;
    DistinctNames(Fixed(o), o.metadata);
  }

  /** Lists without common names. */
  lemma DistinctNames(ps: seq<Property>, qs: seq<Property>)
    requires Distinct(Names(ps)) && Distinct(Names(qs)) && forall p, q :: p in ps && q in qs ==> p.name != q.name
    ensures Distinct(Names(ps + qs))
  {
    var all := ps + qs;
    forall i, j | 0 <= i < j < |all| ensures Names(all)[i] != Names(all)[j] {
      if j < |ps| {
        assert Names(ps)[i] == all[i].name && Names(ps)[j] == all[j].name;
      } else if i >= |ps| {
        assert Names(qs)[i - |ps|] == all[i].name && Names(qs)[j - |ps|] == all[j].name;
      } else {
        assert all[i] in ps && all[j] in qs;
      }
    }
  }

  lemma AcceptableExactly(a: Options, b: Options)
    requires ValidOptions(b)
    ensures (forall p :: p in Properties(b) ==> Acceptable(a, p)) <==> Compatible(a.socketType, b.socketType)
  {
    PropertiesDistinct(b);
    CheckIsCompatible(a.socketType, b.socketType);
    var first := Property(SocketTypeName, TypeName(b.socketType));
    assert SocketTypeName[0] == 83 && IdentityName[0] == 73;
    assert first in Properties(b);
    assert forall p :: p in Properties(b) && p != first ==> p.name != SocketTypeName;
  }

  lemma IdentityLearned(a: Options, b: Options, peer: Peer)
    requires ValidOptions(b) && Compatible(a.socketType, b.socketType)
    ensures LearnAll(a, peer, Properties(b)).0.routingId
         == if SendsIdentity(b.socketType) && a.recvRoutingId then b.routingId else peer.routingId
  {
    AcceptableExactly(a, b);
    PropertiesDistinct(b);
    assert SocketTypeName[0] == 83 && IdentityName[0] == 73;
    var ps := Properties(b);
    var peer1 := Learn(a, peer, ps[0]);
    assert ps[0] in ps;
    if SendsIdentity(b.socketType) {
      assert ps[1] in ps && ps[1] == Property(IdentityName, b.routingId) && ps[1..][0] == ps[1]
             && ps[1..][1..] == b.metadata;
      LearnsRoutingId(a, Learn(a, peer1, ps[1]), b.metadata);
    } else {
      assert ps[1..] == b.metadata;
      LearnsRoutingId(a, peer1, b.metadata);
    }
  }

  /** All that a socket with options `b` says of itself, and nothing else. */
  ghost predicate Told(peer: Peer, b: Options) {
    && SocketTypeName in peer.props && peer.props[SocketTypeName] == TypeName(b.socketType)
    && (IdentityName in peer.props <==> b.socketType in {Req, Dealer, Router})
    && (IdentityName in peer.props ==> peer.props[IdentityName] == b.routingId)
    && (forall p :: p in b.metadata ==> p.name in peer.props && peer.props[p.name] == p.value)
    && (forall n :: n in peer.props ==> n == SocketTypeName || n == IdentityName || n in Names(b.metadata))
  }

  lemma KnowsWhatIsTold(peer: Peer, b: Options)
    requires ValidOptions(b) && Knows(peer, Properties(b))
    ensures Told(peer, b)
  {
    WireNames();
    PropertiesDistinct(b);
    var ps, k := Properties(b), |Fixed(b)|;
    assert ps[0] == Property(SocketTypeName, TypeName(b.socketType)) && ps[0] in ps;
    assert forall p :: p in b.metadata ==> p in ps;
    if SendsIdentity(b.socketType) { assert ps[1] == Property(IdentityName, b.routingId) && ps[1] in ps; }
    forall n | n in peer.props && n != SocketTypeName && n != IdentityName ensures n in Names(b.metadata) {
      var p :| p in ps && p.name == n;
      var i :| 0 <= i < |b.metadata| && b.metadata[i] == p;
      assert Names(b.metadata)[i] == n;
    }
  }

  /**
   A socket accepts the list of another one exactly if their types may be combined, and then it
   knows exactly the properties that the other one announced.
   */
  lemma HandshakeRecovers(a: Options, b: Options)
    requires ValidOptions(b)
    ensures Accepts(a, EncodeAllOf(b)) <==> Compatible(a.socketType, b.socketType)
    ensures Accepts(a, EncodeAllOf(b)) ==>
              var peer := LearnAll(a, Stranger, Split(EncodeAllOf(b)).props).0;
              && Told(peer, b)
              && peer.routingId == if b.socketType in {Req, Dealer, Router} && a.recvRoutingId then b.routingId else []
  {
    PropertiesEncodable(b);
    SplitEncoded(Properties(b));
    RefusesOne(a, Stranger, Properties(b));
    AcceptableExactly(a, b);
    PropertiesDistinct(b);
    if Compatible(a.socketType, b.socketType) {
      assert [] + Properties(b) == Properties(b);
      LearnsAll(a, Stranger, [], Properties(b));
      KnowsWhatIsTold(LearnAll(a, Stranger, Properties(b)).0, b);
      IdentityLearned(a, b, Stranger);
    }
  }

  /** Two sockets accept each other or refuse each other. */
  lemma HandshakeIsMutual(a: Options, b: Options)
    requires ValidOptions(a) && ValidOptions(b)
    ensures Accepts(a, EncodeAllOf(b)) <==> Accepts(b, EncodeAllOf(a))
  {
    HandshakeRecovers(a, b);
    HandshakeRecovers(b, a);
  }

  /**
   Which inputs are accepted: whole properties that are acceptable, after which there may be one
   more that ends after its name or after the length of its value.
   */
  lemma AcceptsExactly(o: Options, data: seq<Byte>)
    ensures var s := Split(data);
            && (forall p :: p in s.props ==> ShortName(p)) && data == EncodeAll(s.props) + s.rest
            && (Accepts(o, data) <==>
                TypesFit(o.socketType, s.props)
                && (s.rest == [] || EndsAfterName(s.rest) || EndsAfterLength(s.rest)))
  {
    SplitIsExact(data);
    NothingRemains(Split(data).rest);
    LearnAllAcceptsExactly(o, Stranger, Split(data).props);
  }

  /** A property cut off after its name is accepted and ignored. */
  lemma TruncationAccepted(o: Options)
    ensures Accepts(o, [1, 88]) && Split([1, 88]).props == []
  {
  }
}
