/**
 The metadata of the ZMTP handshake (the READY command of the NULL mechanism in RFC 23/ZMTP): a list
 of properties, each a name with a one-byte length and a value with a four-byte length.
 */
module Metadata {
  import opened Bytes

  datatype Property = Property(name: Key, value: Key)

  // ---------------------------------------------------------------- encoding

  /** `put_uint32`: most significant byte first. */
  function PutU32(n: nat): (s: seq<Byte>)
    ensures |s| == 4
  {
    var n1 := n / 256;
    var n2 := n1 / 256;
    [n2 / 256 % 256, n2 % 256, n1 % 256, n % 256]
  }

  function GetU32(s: seq<Byte>): nat
    requires |s| == 4
  {
    var b0: int, b1: int, b2: int, b3: int := s[0], s[1], s[2], s[3];
    16777216 * b0 + 65536 * b1 + 256 * b2 + b3
  }

  lemma U32RoundTrip(n: nat)
    requires n < 0x1_0000_0000
    ensures GetU32(PutU32(n)) == n
  {
    var n1 := n / 256;
    var n2 := n1 / 256;
    assert n2 / 256 < 256;
    assert n == 256 * n1 + n % 256 && n1 == 256 * n2 + n1 % 256 && n2 == 256 * (n2 / 256) + n2 % 256;
  }

  /** Network byte order: the most significant byte comes first. */
  lemma BigEndian(n: nat)
    requires n < 0x1_0000_0000
    ensures var s := PutU32(n);
            var b0: int, b1: int, b2: int, b3: int := s[0], s[1], s[2], s[3];
            n == 0x100_0000 * b0 + 0x1_0000 * b1 + 0x100 * b2 + b3
  {
    U32RoundTrip(n);
  }

  /** What `add_property` asserts. */
  predicate Encodable(p: Property) {
    |p.name| <= 255 && |p.value| <= 0x7FFF_FFFF
  }

  function PropertyLen(name: nat, value: nat): nat {
    1 + name + 4 + value
  }

  predicate ShortName(p: Property) {
    |p.name| <= 255
  }

  function Encode(p: Property): (s: seq<Byte>)
    requires ShortName(p)
    ensures |s| == PropertyLen(|p.name|, |p.value|)
  {
    [|p.name|] + p.name + PutU32(|p.value|) + p.value
  }

  /** On the wire: the length of the name in one byte, the name, the length of the value in four bytes, the value. */
  lemma WireFormat(p: Property)
    requires Encodable(p)
    ensures var d, n, v := Encode(p), |p.name|, |p.value|;
            && |d| == 1 + n + 4 + v && d[0] == n && d[1..1 + n] == p.name && d[5 + n..] == p.value
            && var b0: int, b1: int, b2: int, b3: int := d[1 + n], d[2 + n], d[3 + n], d[4 + n];
               v == 0x100_0000 * b0 + 0x1_0000 * b1 + 0x100 * b2 + b3
  {
    var d, n := Encode(p), |p.name|;
    BigEndian(|p.value|);
    var size := d[1 + n..5 + n];
    assert size == PutU32(|p.value|);
    assert size[0] == d[1 + n] && size[1] == d[2 + n] && size[2] == d[3 + n] && size[3] == d[4 + n];
  }

  predicate AllEncodable(ps: seq<Property>) {
    forall p :: p in ps ==> Encodable(p)
  }

  function EncodeAll(ps: seq<Property>): seq<Byte>
    requires forall p :: p in ps ==> ShortName(p)
  {
    if ps == [] then [] else Encode(ps[0]) + EncodeAll(ps[1..])
  }

  lemma EncodeFirst(p: Property, ps: seq<Property>)
    requires ShortName(p) && forall x :: x in ps ==> ShortName(x)
    ensures EncodeAll([p] + ps) == Encode(p) + EncodeAll(ps)
  {
    assert ([p] + ps)[1..] == ps;
  }

  lemma {:induction false} EncodeAppend(ps: seq<Property>, p: Property)
    requires AllEncodable(ps) && Encodable(p)
    ensures AllEncodable(ps + [p]) && EncodeAll(ps + [p]) == EncodeAll(ps) + Encode(p)
  {
    if ps == [] {
      assert [p][1..] == [];
    } else {
      EncodeAppend(ps[1..], p);
      assert (ps + [p])[1..] == ps[1..] + [p];
    }
  }

  // ---------------------------------------------------------------- parsing

  /** The bytes that `bytes_left` still counts when the loop stops at `rest`. */
  function Remaining(rest: seq<Byte>): nat {
    if |rest| <= 1 then |rest|
    else
      var left := |rest| - 1;
      if left < rest[0] then left
      else if left - rest[0] < 4 then left - rest[0]
      else left - rest[0] - 4
  }

  /** Does a whole property stand at the beginning? */
  predicate StartsProperty(d: seq<Byte>) {
    && |d| > 1 && |d| - 1 - d[0] >= 4
    && |d| - 1 - d[0] - 4 >= GetU32(d[1 + d[0]..5 + d[0]])
  }

  function FirstProperty(d: seq<Byte>): (p: Property)
    requires StartsProperty(d)
    ensures PropertyLen(|p.name|, |p.value|) <= |d|
  {
    var n, v := d[0], GetU32(d[1 + d[0]..5 + d[0]]);
    Property(d[1..1 + n], d[5 + n..5 + n + v])
  }

  datatype Parsed = Parsed(props: seq<Property>, rest: seq<Byte>)

  /** The properties that the loop of `parse_metadata` sees, and where it stops. */
  function Split(d: seq<Byte>): Parsed
    decreases |d|
  {
    if !StartsProperty(d) then Parsed([], d)
    else
      var p := FirstProperty(d);
      var more := Split(d[PropertyLen(|p.name|, |p.value|)..]);
      Parsed([p] + more.props, more.rest)
  }

  /** Encoding and then splitting gives the property back. */
  lemma FirstOfEncoded(p: Property, tail: seq<Byte>)
    requires Encodable(p)
    ensures var d := Encode(p) + tail;
            StartsProperty(d) && FirstProperty(d) == p && d[PropertyLen(|p.name|, |p.value|)..] == tail
  {
    var d, n := Encode(p) + tail, |p.name|;
    U32RoundTrip(|p.value|);
    assert d[1..1 + n] == p.name;
    assert d[1 + n..5 + n] == PutU32(|p.value|);
    assert d[5 + n..5 + n + |p.value|] == p.value;
  }

  /** The parser recovers every list of properties that the encoder can write. */
  lemma {:induction false} SplitEncoded(ps: seq<Property>)
    requires AllEncodable(ps)
    ensures Split(EncodeAll(ps)) == Parsed(ps, [])
  {
    if ps != [] {
      SplitEncoded(ps[1..]);
      FirstOfEncoded(ps[0], EncodeAll(ps[1..]));
    }
  }

  lemma FirstIsEncoded(d: seq<Byte>)
    requires StartsProperty(d)
    ensures var p := FirstProperty(d);
            ShortName(p) && d == Encode(p) + d[PropertyLen(|p.name|, |p.value|)..]
  {
    var p, n := FirstProperty(d), d[0];
    var size := d[1 + n..5 + n];
    PutGot(size);
    assert |p.name| == n && |p.value| == GetU32(size);
    assert d == [n] + d[1..1 + n] + size + d[5 + n..5 + n + |p.value|] + d[5 + n + |p.value|..];
  }

  lemma PutGot(s: seq<Byte>)
    requires |s| == 4
    ensures PutU32(GetU32(s)) == s
  {
    var b0: int, b1: int, b2: int, b3: int := s[0], s[1], s[2], s[3];
    var n := GetU32(s);
    assert n == 256 * (256 * (256 * b0 + b1) + b2) + b3;
    assert n / 256 == 256 * (256 * b0 + b1) + b2 && n % 256 == b3;
    assert n / 256 / 256 == 256 * b0 + b1 && n / 256 % 256 == b2;
    assert n / 256 / 256 / 256 == b0 && n / 256 / 256 % 256 == b1;
  }

  lemma Regroup(d: seq<Byte>, p: Property, tail: seq<Byte>, ps: seq<Property>, rest: seq<Byte>)
    requires ShortName(p) && forall x :: x in ps ==> ShortName(x)
    requires d == Encode(p) + tail && tail == EncodeAll(ps) + rest
    ensures (forall x :: x in [p] + ps ==> ShortName(x)) && d == EncodeAll([p] + ps) + rest
  {
    EncodeFirst(p, ps);
  }

  /** Nothing is skipped: the input is the properties found, followed by what is left. */
  lemma {:induction false} SplitIsExact(d: seq<Byte>)
    ensures var s := Split(d);
            (forall p :: p in s.props ==> ShortName(p)) && d == EncodeAll(s.props) + s.rest && !StartsProperty(s.rest)
    decreases |d|
  {
    if StartsProperty(d) {
      var p := FirstProperty(d);
      var tail := d[PropertyLen(|p.name|, |p.value|)..];
      FirstIsEncoded(d);
      SplitIsExact(tail);
      var more := Split(tail);
      assert Split(d) == Parsed([p] + more.props, more.rest);
      Regroup(d, p, tail, more.props, more.rest);
    }
  }

  /**
   No bytes count as left exactly if the input ends after a whole property, after the name of a
   property, or after the length of a value that is missing.
   */
  lemma NothingRemains(rest: seq<Byte>)
    requires !StartsProperty(rest)
    ensures Remaining(rest) == 0 <==>
              || rest == []
              || EndsAfterName(rest) || EndsAfterLength(rest)
  {
    if |rest| > 1 {
      var n: int := rest[0];
      if |rest| == n + 5 { assert rest[n + 1..] == rest[n + 1..n + 5]; }
    }
  }

  predicate EndsAfterName(rest: seq<Byte>) {
    |rest| > 1 && var n: int := rest[0]; |rest| == n + 1
  }

  predicate EndsAfterLength(rest: seq<Byte>) {
    |rest| > 1 && var n: int := rest[0]; |rest| == n + 5 && GetU32(rest[n + 1..]) > 0
  }
}
