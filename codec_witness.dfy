/**
 * The laws of `Model.JsonCodec.Sound()` are consistent. A toy codec satisfies them: a
 * prefix-free byte serialisation of the JSON tree with its parser, and a time formatter
 * that writes every instant as its signed count of nanoseconds. It says nothing about
 * encoding/json itself; it shows that the vault round trips proved under `Sound()` are not
 * proved from contradictory laws, and that they apply to every vault under such a codec.
 */
module CodecWitness {
  import opened Wrappers
  import opened Model
  import Crypto

  // ---------------------------------------------------------------------------------------
  // The serialisation: a tag byte per value; strings, arrays and objects as lists in which
  // every element is announced by a 1 and the end by a 0; a character as three bytes.

  function EncChar(c: char): seq<byte> {
    var v := c as int;
    [(v / 65536) as byte, (v % 65536 / 256) as byte, (v % 65536 % 256) as byte]
  }

  function EncString(s: string): seq<byte> {
    if s == [] then [0] else [1] + EncChar(s[0]) + EncString(s[1..])
  }

  function EncJson(j: Json): seq<byte>
    decreases j, 1
  {
    match j
    case JNull => [0]
    case JBool(b) => [1, if b then 1 else 0]
    case JNumber(literal) => [2] + EncString(literal)
    case JString(s) => [3] + EncString(s)
    case JArray(items) => [4] + EncItems(items)
    case JObject(members) => [5] + EncMembers(j, 0)
  }

  function EncItems(items: seq<Json>): seq<byte>
    decreases items, 0
  {
    if items == [] then [0] else [1] + EncJson(items[0]) + EncItems(items[1..])
  }

  /** The members of object j from index i on. */
  function EncMembers(j: Json, i: nat): seq<byte>
    requires j.JObject? && i <= |j.members|
    decreases j, 0, |j.members| - i
  {
    if i == |j.members| then [0]
    else [1] + EncString(j.members[i].0) + EncJson(j.members[i].1) + EncMembers(j, i + 1)
  }

  // ---------------------------------------------------------------------------------------
  // The parser: each function reads one value off the front and returns it with the rest.

  function DecChar(b: seq<byte>): (r: Option<(char, seq<byte>)>)
    ensures r.Some? ==> |r.value.1| < |b|
  {
    if |b| < 3 then None
    else
      var v := b[0] as int * 65536 + b[1] as int * 256 + b[2] as int;
      if 0 <= v < 0xD800 || 0xE000 <= v < 0x11_0000 then Some((v as char, b[3..])) else None
  }

  function DecString(b: seq<byte>): (r: Option<(string, seq<byte>)>)
    ensures r.Some? ==> |r.value.1| < |b|
    decreases |b|
  {
    if b == [] then None
    else if b[0] == 0 then Some(("", b[1..]))
    else if b[0] != 1 then None
    else match DecChar(b[1..])
      case None => None
      case Some((c, rest)) =>
        match DecString(rest)
        case None => None
        case Some((s, rest')) => Some(([c] + s, rest'))
  }

  function DecJson(b: seq<byte>): (r: Option<(Json, seq<byte>)>)
    ensures r.Some? ==> |r.value.1| < |b|
    decreases |b|
  {
    if b == [] then None
    else if b[0] == 0 then Some((JNull, b[1..]))
    else if b[0] == 1 then
      if |b| < 2 || b[1] > 1 then None else Some((JBool(b[1] == 1), b[2..]))
    else if b[0] == 2 then
      match DecString(b[1..])
      case None => None
      case Some((s, rest)) => Some((JNumber(s), rest))
    else if b[0] == 3 then
      match DecString(b[1..])
      case None => None
      case Some((s, rest)) => Some((JString(s), rest))
    else if b[0] == 4 then
      match DecItems(b[1..])
      case None => None
      case Some((items, rest)) => Some((JArray(items), rest))
    else if b[0] == 5 then
      match DecMembers(b[1..])
      case None => None
      case Some((members, rest)) => Some((JObject(members), rest))
    else None
  }

  function DecItems(b: seq<byte>): (r: Option<(seq<Json>, seq<byte>)>)
    ensures r.Some? ==> |r.value.1| < |b|
    decreases |b|
  {
    if b == [] then None
    else if b[0] == 0 then Some(([], b[1..]))
    else if b[0] != 1 then None
    else match DecJson(b[1..])
      case None => None
      case Some((j, rest)) =>
        match DecItems(rest)
        case None => None
        case Some((items, rest')) => Some(([j] + items, rest'))
  }

  function DecMembers(b: seq<byte>): (r: Option<(seq<(string, Json)>, seq<byte>)>)
    ensures r.Some? ==> |r.value.1| < |b|
    decreases |b|
  {
    if b == [] then None
    else if b[0] == 0 then Some(([], b[1..]))
    else if b[0] != 1 then None
    else match DecString(b[1..])
      case None => None
      case Some((k, rest)) =>
        match DecJson(rest)
        case None => None
        case Some((v, rest')) =>
          match DecMembers(rest')
          case None => None
          case Some((members, rest'')) => Some(([(k, v)] + members, rest''))
  }

  // ---------------------------------------------------------------------------------------
  // The parser reads back what the serialisation wrote, whatever follows it.

  lemma DecEncChar(c: char, rest: seq<byte>)
    ensures DecChar(EncChar(c) + rest) == Some((c, rest))
  {
    var v := c as int;
    var hi, low := v / 65536, v % 65536;
    assert v == hi * 65536 + low;
    assert low == low / 256 * 256 + low % 256;
    var b := EncChar(c) + rest;
    assert b[0] as int == hi && b[1] as int == low / 256 && b[2] as int == low % 256;
    assert b[3..] == rest;
  }

  lemma {:induction false} DecEncString(s: string, rest: seq<byte>)
    ensures DecString(EncString(s) + rest) == Some((s, rest))
  {
    if s == [] {
      Uncons(0, rest);
    } else {
      var c, t := s[0], s[1..];
      var tail := EncString(t) + rest;
      EncStringStep(s, rest);
      Uncons(1, EncChar(c) + tail);
      DecEncChar(c, tail);
      DecEncString(t, rest);
      DecStringCons(EncString(s) + rest, c, tail, t, rest);
      StringCons(s);
    }
  }

  /** The encoding of a non-empty string, followed by rest, split at its first character. */
  lemma EncStringStep(s: string, rest: seq<byte>)
    requires s != []
    ensures EncString(s) + rest == [1] + (EncChar(s[0]) + (EncString(s[1..]) + rest))
  {
    AppendAssoc3([1], EncChar(s[0]), EncString(s[1..]), rest);
  }

  /** A non-empty string is its first character followed by the rest. */
  lemma StringCons(s: string)
    requires s != []
    ensures [s[0]] + s[1..] == s
  {
  }

  /** One step of DecString: a 1, a character, then the remaining characters. */
  lemma DecStringCons(b: seq<byte>, c: char, tail: seq<byte>, s: string, rest: seq<byte>)
    requires |b| > 0 && b[0] == 1
    requires DecChar(b[1..]) == Some((c, tail)) && DecString(tail) == Some((s, rest))
    ensures DecString(b) == Some(([c] + s, rest))
  {
  }

  lemma {:induction false} DecEncJson(j: Json, rest: seq<byte>)
    ensures DecJson(EncJson(j) + rest) == Some((j, rest))
    decreases j, 1
  {
    var b := EncJson(j) + rest;
    match j
    case JNull =>
      assert b[1..] == rest;
    case JBool(x) =>
      assert b[2..] == rest;
    case JNumber(literal) =>
      TagStep(2, EncString(literal), rest);
      DecEncString(literal, rest);
      DecJsonNested(b, rest);
    case JString(s) =>
      TagStep(3, EncString(s), rest);
      DecEncString(s, rest);
      DecJsonNested(b, rest);
    case JArray(items) =>
      TagStep(4, EncItems(items), rest);
      DecEncItems(items, rest);
      DecJsonNested(b, rest);
    case JObject(members) =>
      TagStep(5, EncMembers(j, 0), rest);
      DecEncMembers(j, 0, rest);
      assert members[0..] == members;
      DecJsonNested(b, rest);
  }

  /** A tag byte in front of a body, followed by rest: the tag first, then body + rest. */
  lemma TagStep(t: byte, body: seq<byte>, rest: seq<byte>)
    ensures ([t] + body + rest)[0] == t && ([t] + body + rest)[1..] == body + rest
  {
    assert [t] + body + rest == [t] + (body + rest);
  }

  /** DecJson on a number, string, array or object tag reads the body that follows it. */
  lemma DecJsonNested(b: seq<byte>, rest: seq<byte>)
    requires |b| > 0 && 2 <= b[0] <= 5
    ensures b[0] == 2 && DecString(b[1..]).Some? ==>
              DecJson(b) == Some((JNumber(DecString(b[1..]).value.0), DecString(b[1..]).value.1))
    ensures b[0] == 3 && DecString(b[1..]).Some? ==>
              DecJson(b) == Some((JString(DecString(b[1..]).value.0), DecString(b[1..]).value.1))
    ensures b[0] == 4 && DecItems(b[1..]).Some? ==>
              DecJson(b) == Some((JArray(DecItems(b[1..]).value.0), DecItems(b[1..]).value.1))
    ensures b[0] == 5 && DecMembers(b[1..]).Some? ==>
              DecJson(b) == Some((JObject(DecMembers(b[1..]).value.0), DecMembers(b[1..]).value.1))
  {
  }

  lemma {:induction false} DecEncItems(items: seq<Json>, rest: seq<byte>)
    ensures DecItems(EncItems(items) + rest) == Some((items, rest))
    decreases items, 0
  {
    var b := EncItems(items) + rest;
    if items == [] {
      assert b[1..] == rest;
    } else {
      var x, xs := items[0], items[1..];
      var tail := EncItems(xs) + rest;
      EncItemsStep(items, rest);
      Uncons(1, EncJson(x) + tail);
      DecEncJson(x, tail);
      DecEncItems(xs, rest);
      DecItemsCons(b, x, tail, xs, rest);
      assert [x] + xs == items;
    }
  }

  /** The encoding of a non-empty array, followed by rest, split at its first value. */
  lemma EncItemsStep(items: seq<Json>, rest: seq<byte>)
    requires items != []
    ensures EncItems(items) + rest == [1] + (EncJson(items[0]) + (EncItems(items[1..]) + rest))
  {
    AppendAssoc3([1], EncJson(items[0]), EncItems(items[1..]), rest);
  }

  /** One step of DecItems: a 1, a value, then the remaining values. */
  lemma DecItemsCons(b: seq<byte>, x: Json, tail: seq<byte>, xs: seq<Json>, rest: seq<byte>)
    requires |b| > 0 && b[0] == 1
    requires DecJson(b[1..]) == Some((x, tail)) && DecItems(tail) == Some((xs, rest))
    ensures DecItems(b) == Some(([x] + xs, rest))
  {
  }

  lemma {:induction false} DecEncMembers(j: Json, i: nat, rest: seq<byte>)
    requires j.JObject? && i <= |j.members|
    ensures DecMembers(EncMembers(j, i) + rest) == Some((j.members[i..], rest))
    decreases j, 0, |j.members| - i
  {
    var b := EncMembers(j, i) + rest;
    if i == |j.members| {
      assert b[1..] == rest;
      assert j.members[i..] == [];
    } else {
      var k, v := j.members[i].0, j.members[i].1;
      var tail := EncMembers(j, i + 1) + rest;
      var after := EncJson(v) + tail;
      EncMembersStep(j, i, rest);
      Uncons(1, EncString(k) + after);
      DecEncString(k, after);
      DecEncJson(v, tail);
      DecEncMembers(j, i + 1, rest);
      DecMembersCons(b, k, v, after, tail, j.members[i + 1..], rest);
      SliceCons(j.members, i);
    }
  }

  /** The suffix from i is its first element followed by the suffix from i + 1. */
  lemma SliceCons(s: seq<(string, Json)>, i: nat)
    requires i < |s|
    ensures [s[i]] + s[i + 1..] == s[i..]
  {
  }

  /** The encoding of the members from i on, followed by rest, split at its first member. */
  lemma EncMembersStep(j: Json, i: nat, rest: seq<byte>)
    requires j.JObject? && i < |j.members|
    ensures EncMembers(j, i) + rest ==
              [1] + (EncString(j.members[i].0) + (EncJson(j.members[i].1) + (EncMembers(j, i + 1) + rest)))
  {
    var k, v := j.members[i].0, j.members[i].1;
    var e, s, x, t := EncMembers(j, i), EncString(k), EncJson(v), EncMembers(j, i + 1);
    assert e == [1] + s + x + t;
    AppendAssoc4([1], s, x, t, rest);
  }

  lemma AppendAssoc3(a: seq<byte>, b: seq<byte>, c: seq<byte>, d: seq<byte>)
    ensures a + b + c + d == a + (b + (c + d))
  {
  }

  lemma AppendAssoc4(a: seq<byte>, b: seq<byte>, c: seq<byte>, d: seq<byte>, e: seq<byte>)
    ensures a + b + c + d + e == a + (b + (c + (d + e)))
  {
  }

  /** The first byte and the rest of [x] + s. */
  lemma Uncons(x: byte, s: seq<byte>)
    ensures ([x] + s)[0] == x && ([x] + s)[1..] == s
  {
  }

  /** One step of DecMembers: a 1, a key, a value, then the remaining members. */
  lemma DecMembersCons(b: seq<byte>, k: string, v: Json, after: seq<byte>, tail: seq<byte>,
                       members: seq<(string, Json)>, rest: seq<byte>)
    requires |b| > 0 && b[0] == 1
    requires DecString(b[1..]) == Some((k, after)) && DecJson(after) == Some((v, tail))
    requires DecMembers(tail) == Some((members, rest))
    ensures DecMembers(b) == Some(([(k, v)] + members, rest))
  {
  }

  /** Unmarshal: the parsed value when the bytes hold exactly one, else a syntax error. */
  function Unmarshal(b: seq<byte>): Option<Json> {
    match DecJson(b)
    case Some((j, rest)) => if rest == [] then Some(j) else None
    case None => None
  }

  // ---------------------------------------------------------------------------------------
  // Times: the signed decimal count of nanoseconds.

  function FormatTime(t: Timestamp): Option<string> {
    if t.nanos < 0 then Some("-" + Crypto.Decimal(-t.nanos)) else Some(Crypto.Decimal(t.nanos))
  }

  predicate AllDigits(s: string) {
    forall i :: 0 <= i < |s| ==> '0' <= s[i] <= '9'
  }

  function ParseTime(s: string): Option<Timestamp> {
    if |s| > 0 && s[0] == '-' && AllDigits(s[1..]) then Some(Timestamp(0 - Crypto.DigitsValue(s[1..]) as int))
    else if AllDigits(s) then Some(Timestamp(Crypto.DigitsValue(s)))
    else None
  }

  /** Every instant formats, and its text parses back to it. */
  lemma ParseFormatTime(t: Timestamp)
    ensures FormatTime(t).Some? && ParseTime(FormatTime(t).value) == Some(t)
  {
    if t.nanos < 0 {
      var digits := Crypto.Decimal(-t.nanos);
      assert ("-" + digits)[1..] == digits;
    }
  }

  /** The toy codec. */
  function Toy(): JsonCodec {
    JsonCodec(EncJson, Unmarshal, FormatTime, ParseTime)
  }

  lemma ToyIsSound()
    ensures Toy().Sound()
  {
    var toy := Toy();
    forall j ensures toy.unmarshal(toy.marshal(j)) == Some(j) {
      DecEncJson(j, []);
      assert EncJson(j) + [] == EncJson(j);
    }
    forall t | toy.formatTime(t).Some? ensures toy.parseTime(toy.formatTime(t).value) == Some(t) {
      ParseFormatTime(t);
    }
  }

  /** A codec with all the laws of `JsonCodec.Sound()` exists. */
  lemma CodecIsSatisfiable()
    ensures exists codec: JsonCodec :: codec.Sound()
  {
    ToyIsSound();
  }

  /** Under the toy codec every vault encodes, and its encoding decodes back to it. */
  lemma ToyRoundTrip(v: Vault)
    ensures Encode(Toy(), v).Success? && Decode(Toy(), Encode(Toy(), v).value) == Success(v)
  {
    forall i | 0 <= i < |v.entries|
      ensures Toy().formatTime(v.entries[i].createdAt).Some? && Toy().formatTime(v.entries[i].updatedAt).Some?
    {
      ParseFormatTime(v.entries[i].createdAt);
      ParseFormatTime(v.entries[i].updatedAt);
    }
    ToyIsSound();
    VaultRoundTrip(Toy(), v);
  }
}
