/**
 * The data types of pkg/model/entry.go and their JSON form.
 *
 * `encoding/json` is modelled at two levels. The tree level is concrete: which keys an
 * Entry and a Vault emit and in what order, the `omitempty` rule for url and notes, and
 * how Go fills a struct from an object (absent keys and `null` leave the zero value, a
 * value of the wrong kind is an error; of duplicate keys only the last member is read,
 * where Go also decodes the earlier ones into the same field). The byte level
 * (the JSON text itself, and the textual form of timestamps) is a `JsonCodec` of library
 * functions whose assumed laws are `JsonCodec.Sound()`.
 */
module Model {
  import opened Wrappers

  /** An instant, opaque: counted in nanoseconds from Go's zero time. */
  datatype Timestamp = Timestamp(nanos: int)

  /** The zero `time.Time`. */
  const ZeroTime := Timestamp(0)

  datatype Entry = Entry(
    id: string,
    title: string,
    username: string,
    password: string,
    url: string,
    notes: string,
    createdAt: Timestamp,
    updatedAt: Timestamp)

  /** The zero Entry, what Go decodes from `null`. */
  const ZeroEntry := Entry("", "", "", "", "", "", ZeroTime, ZeroTime)

  datatype Vault = Vault(entries: seq<Entry>)

  /** A JSON value; object members keep their order. */
  datatype Json =
    | JNull
    | JBool(b: bool)
    | JNumber(literal: string)
    | JString(s: string)
    | JArray(items: seq<Json>)
    | JObject(members: seq<(string, Json)>)

  datatype JsonError =
    | SyntaxError                // the bytes are not JSON
    | TimeOutOfRange(t: Timestamp)  // time.Time.MarshalJSON refuses years outside [0, 9999]
    | BadTime(key: string)       // time.Time.UnmarshalJSON could not parse the string
    | TypeMismatch(key: string)  // a value of the wrong kind for the Go field

  /** The byte-level JSON library functions. */
  datatype JsonCodec = JsonCodec(
    marshal: Json -> seq<byte>,
    unmarshal: seq<byte> -> Option<Json>,
    formatTime: Timestamp -> Option<string>,  // the RFC 3339 text, or None when out of range
    parseTime: string -> Option<Timestamp>)
  {
    /** Unmarshal reads back what Marshal wrote, and a formatted time parses back to itself. */
    ghost predicate Sound() {
      && (forall j :: unmarshal(marshal(j)) == Some(j))
      && (forall t :: formatTime(t).Some? ==> parseTime(formatTime(t).value) == Some(t))
    }
  }

  /** The keys of an object's members, in order. */
  function Keys(members: seq<(string, Json)>): (keys: seq<string>)
    ensures |keys| == |members|
    ensures forall i :: 0 <= i < |members| ==> keys[i] == members[i].0
  {
    if members == [] then [] else Keys(members[..|members| - 1]) + [members[|members| - 1].0]
  }

  /** A string field tagged `omitempty`: no member at all when the string is empty. */
  function OmitEmpty(key: string, value: string): seq<(string, Json)> {
    if value == "" then [] else [(key, JString(value))]
  }

  function EncodeTime(codec: JsonCodec, t: Timestamp): (r: Result<Json, JsonError>)
    ensures r.Success? <==> codec.formatTime(t).Some?
  {
    match codec.formatTime(t)
    case None => Failure(TimeOutOfRange(t))
    case Some(text) => Success(JString(text))
  }

  /** The members in the order of the struct's fields, url and notes only when non-empty. */
  function EntryMembers(e: Entry, created: Json, updated: Json): seq<(string, Json)> {
    RequiredStrings(e) + OmitEmpty("url", e.url) + OmitEmpty("notes", e.notes)
    + [("created_at", created), ("updated_at", updated)]
  }

  function RequiredStrings(e: Entry): seq<(string, Json)> {
    [("id", JString(e.id)), ("title", JString(e.title)),
     ("username", JString(e.username)), ("password", JString(e.password))]
  }

  /** err reports a timestamp of e that the time library cannot format. */
  predicate Unformattable(codec: JsonCodec, e: Entry, err: JsonError) {
    || (err == TimeOutOfRange(e.createdAt) && codec.formatTime(e.createdAt).None?)
    || (err == TimeOutOfRange(e.updatedAt) && codec.formatTime(e.updatedAt).None?)
  }

  /** json.Marshal of one Entry; it fails only when a timestamp cannot be formatted. */
  function EncodeEntry(codec: JsonCodec, e: Entry): (r: Result<Json, JsonError>)
    ensures r.Success? <==> codec.formatTime(e.createdAt).Some? && codec.formatTime(e.updatedAt).Some?
    ensures r.Success? ==> r.value.JObject?
    ensures r.Failure? ==> Unformattable(codec, e, r.error)
  {
    var created :- EncodeTime(codec, e.createdAt);
    var updated :- EncodeTime(codec, e.updatedAt);
    Success(JObject(EntryMembers(e, created, updated)))
  }

  /** The entries as a JSON array, element by element in sequence order. */
  function EncodeEntries(codec: JsonCodec, entries: seq<Entry>): (r: Result<seq<Json>, JsonError>)
    ensures r.Success? <==> forall i :: 0 <= i < |entries| ==> EncodeEntry(codec, entries[i]).Success?
    ensures r.Success? ==>
              && |r.value| == |entries|
              && forall i :: 0 <= i < |entries| ==> EncodeEntry(codec, entries[i]) == Success(r.value[i])
    ensures r.Failure? ==> exists i :: 0 <= i < |entries| && Unformattable(codec, entries[i], r.error)
  {
    if entries == [] then Success([])
    else
      var init :- EncodeEntries(codec, entries[..|entries| - 1]);
      var last :- EncodeEntry(codec, entries[|entries| - 1]);
      Success(init + [last])
  }

  /** json.Marshal of a Vault, before the bytes: an object whose only key is "entries". */
  function EncodeVault(codec: JsonCodec, v: Vault): Result<Json, JsonError> {
    var items :- EncodeEntries(codec, v.entries);
    Success(JObject([("entries", JArray(items))]))
  }

  /**
   * json.Marshal(vault): it fails exactly when some entry carries a timestamp the time
   * library cannot format, and the error names such a timestamp.
   */
  function Encode(codec: JsonCodec, v: Vault): (r: Result<seq<byte>, JsonError>)
    ensures r.Success? <==>
              forall i :: 0 <= i < |v.entries| ==>
                codec.formatTime(v.entries[i].createdAt).Some? && codec.formatTime(v.entries[i].updatedAt).Some?
    ensures r.Failure? ==> exists i :: 0 <= i < |v.entries| && Unformattable(codec, v.entries[i], r.error)
  {
    var j :- EncodeVault(codec, v);
    Success(codec.marshal(j))
  }

  /**
   * The object's members by key: members are taken in order and a repeated key keeps only
   * its last member. encoding/json decodes every member of a repeated key into the field,
   * so an earlier member can still leave a value or an error behind; that is not modelled.
   */
  function Fields(members: seq<(string, Json)>): map<string, Json> {
    if members == [] then map[]
    else Fields(members[..|members| - 1])[members[|members| - 1].0 := members[|members| - 1].1]
  }

  /** The text a Go string field ends up with when the object decodes: a string member's, else "". */
  function StringField(fields: map<string, Json>, key: string): string {
    if key in fields && fields[key].JString? then fields[key].s else ""
  }

  /** A decoding failure is a value of the wrong kind or a time that does not parse. */
  predicate DecodeFailure(err: JsonError) {
    err.TypeMismatch? || err.BadTime?
  }

  /** A Go string field: absent or null leaves "", a string sets it, anything else is an error. */
  function DecodeString(fields: map<string, Json>, key: string): Result<string, JsonError> {
    if key !in fields then Success("")
    else
      match fields[key]
      case JNull => Success("")
      case JString(s) => Success(s)
      case _ => Failure(TypeMismatch(key))
  }

  /** A time.Time field: absent or null leaves the zero time, a string must parse. */
  function DecodeTime(codec: JsonCodec, fields: map<string, Json>, key: string): Result<Timestamp, JsonError> {
    if key !in fields then Success(ZeroTime)
    else
      match fields[key]
      case JNull => Success(ZeroTime)
      case JString(s) =>
        (match codec.parseTime(s)
         case None => Failure(BadTime(key))
         case Some(t) => Success(t))
      case _ => Failure(TypeMismatch(key))
  }

  /**
   * json.Unmarshal into an Entry: null gives the zero Entry, an object fills the fields from
   * its members, and any other value is an error.
   */
  function DecodeEntry(codec: JsonCodec, j: Json): (r: Result<Entry, JsonError>)
    ensures j.JNull? ==> r == Success(ZeroEntry)
    ensures !j.JNull? && !j.JObject? ==> r.Failure?
    ensures r.Failure? ==> DecodeFailure(r.error)
    ensures j.JObject? && r.Success? ==>
              var f := Fields(j.members);
              && r.value.id == StringField(f, "id") && r.value.title == StringField(f, "title")
              && r.value.username == StringField(f, "username") && r.value.password == StringField(f, "password")
              && r.value.url == StringField(f, "url") && r.value.notes == StringField(f, "notes")
  {
    match j
    case JNull => Success(ZeroEntry)
    case JObject(ms) =>
      var fields := Fields(ms);
      var id :- DecodeString(fields, "id");
      var title :- DecodeString(fields, "title");
      var username :- DecodeString(fields, "username");
      var password :- DecodeString(fields, "password");
      var url :- DecodeString(fields, "url");
      var notes :- DecodeString(fields, "notes");
      var created :- DecodeTime(codec, fields, "created_at");
      var updated :- DecodeTime(codec, fields, "updated_at");
      Success(Entry(id, title, username, password, url, notes, created, updated))
    case _ => Failure(TypeMismatch("entries"))
  }

  /** The elements of a JSON array, decoded one by one in order. */
  function DecodeEntries(codec: JsonCodec, items: seq<Json>): (r: Result<seq<Entry>, JsonError>)
    ensures r.Success? <==> forall i :: 0 <= i < |items| ==> DecodeEntry(codec, items[i]).Success?
    ensures r.Success? ==>
              && |r.value| == |items|
              && forall i :: 0 <= i < |items| ==> DecodeEntry(codec, items[i]) == Success(r.value[i])
    ensures r.Failure? ==> DecodeFailure(r.error)
  {
    if items == [] then Success([])
    else
      var init :- DecodeEntries(codec, items[..|items| - 1]);
      var last :- DecodeEntry(codec, items[|items| - 1]);
      Success(init + [last])
  }

  /** json.Unmarshal into a Vault: null, an absent or a null "entries" all give no entries. */
  function DecodeVault(codec: JsonCodec, j: Json): (r: Result<Vault, JsonError>)
    ensures j.JNull? ==> r == Success(Vault([]))
    ensures j.JObject? && ("entries" !in Fields(j.members) || Fields(j.members)["entries"].JNull?) ==>
              r == Success(Vault([]))
    ensures j.JObject? && "entries" in Fields(j.members) && Fields(j.members)["entries"].JArray? ==>
              var items := Fields(j.members)["entries"].items;
              && (r.Success? <==> forall i :: 0 <= i < |items| ==> DecodeEntry(codec, items[i]).Success?)
              && (r.Success? ==> |r.value.entries| == |items| &&
                                 forall i :: 0 <= i < |items| ==> DecodeEntry(codec, items[i]) == Success(r.value.entries[i]))
    ensures r.Failure? ==> DecodeFailure(r.error)
  {
    if j.JNull? then Success(Vault([]))
    else if !j.JObject? then Failure(TypeMismatch(""))
    else if "entries" !in Fields(j.members) then Success(Vault([]))
    else
      var value := Fields(j.members)["entries"];
      if value.JNull? then Success(Vault([]))
      else if !value.JArray? then Failure(TypeMismatch("entries"))
      else
        var decoded := DecodeEntries(codec, value.items);
        if decoded.Success? then Success(Vault(decoded.value)) else Failure(decoded.error)
  }

  /**
   * json.Unmarshal(bytes, &vault): a syntax error exactly when the bytes are not JSON, and
   * otherwise only decoding failures; never an encoding error.
   */
  function Decode(codec: JsonCodec, bytes: seq<byte>): (r: Result<Vault, JsonError>)
    ensures r == Failure(SyntaxError) <==> codec.unmarshal(bytes).None?
    ensures r.Failure? && codec.unmarshal(bytes).Some? ==> DecodeFailure(r.error)
    ensures codec.unmarshal(bytes).Some? ==> r == DecodeVault(codec, codec.unmarshal(bytes).value)
  {
    match codec.unmarshal(bytes)
    case None => Failure(SyntaxError)
    case Some(j) => DecodeVault(codec, j)
  }

  // ---------------------------------------------------------------------------
  // Properties of the encoding

  /** The keys an encoded entry carries, in struct order, with url and notes omitted when empty. */
  lemma EncodedKeys(codec: JsonCodec, e: Entry)
    requires EncodeEntry(codec, e).Success?
    ensures Keys(EncodeEntry(codec, e).value.members) ==
              ["id", "title", "username", "password"]
              + (if e.url == "" then [] else ["url"])
              + (if e.notes == "" then [] else ["notes"])
              + ["created_at", "updated_at"]
  {
    var ms := EncodeEntry(codec, e).value.members;
    var keys := ["id", "title", "username", "password"]
              + (if e.url == "" then [] else ["url"])
              + (if e.notes == "" then [] else ["notes"])
              + ["created_at", "updated_at"];
    assert |ms| == |keys|;
    forall i | 0 <= i < |ms| ensures Keys(ms)[i] == keys[i] {
    }
  }

  /** url is present in the encoding exactly when it is non-empty; so is notes. */
  lemma OptionalFieldsOmittedIffEmpty(codec: JsonCodec, e: Entry)
    requires EncodeEntry(codec, e).Success?
    ensures "url" in Keys(EncodeEntry(codec, e).value.members) <==> e.url != ""
    ensures "notes" in Keys(EncodeEntry(codec, e).value.members) <==> e.notes != ""
  {
    EncodedKeys(codec, e);
    var keys := Keys(EncodeEntry(codec, e).value.members);
    if e.url == "" {
      assert forall i :: 0 <= i < |keys| ==> keys[i] != "url";
    } else {
      assert keys[4] == "url";
    }
    if e.notes == "" {
      assert forall i :: 0 <= i < |keys| ==> keys[i] != "notes";
    } else {
      assert keys[if e.url == "" then 4 else 5] == "notes";
    }
  }

  /** id, title, username, password and both timestamps are always emitted, even when empty or zero. */
  lemma RequiredFieldsAlwaysEmitted(codec: JsonCodec, e: Entry)
    requires EncodeEntry(codec, e).Success?
    ensures forall k :: k in ["id", "title", "username", "password", "created_at", "updated_at"] ==>
              k in Keys(EncodeEntry(codec, e).value.members)
  {
    EncodedKeys(codec, e);
    var keys := Keys(EncodeEntry(codec, e).value.members);
    assert keys[0] == "id" && keys[1] == "title" && keys[2] == "username" && keys[3] == "password";
    assert keys[|keys| - 2] == "created_at" && keys[|keys| - 1] == "updated_at";
  }

  lemma FieldsSnoc(members: seq<(string, Json)>, m: (string, Json))
    ensures Fields(members + [m]) == Fields(members)[m.0 := m.1]
  {
    assert (members + [m])[..|members + [m]| - 1] == members;
  }

  /** The field map of an encoded entry, key by key in emission order. */
  function EntryFieldMap(e: Entry, created: Json, updated: Json): map<string, Json> {
    var m := map["id" := JString(e.id)]["title" := JString(e.title)]
               ["username" := JString(e.username)]["password" := JString(e.password)];
    var m := if e.url == "" then m else m["url" := JString(e.url)];
    var m := if e.notes == "" then m else m["notes" := JString(e.notes)];
    m["created_at" := created]["updated_at" := updated]
  }

  lemma FieldsOfEntryMembers(e: Entry, created: Json, updated: Json)
    ensures Fields(EntryMembers(e, created, updated)) == EntryFieldMap(e, created, updated)
  {
    var a := [("id", JString(e.id))];
    var b := a + [("title", JString(e.title))];
    var c := b + [("username", JString(e.username))];
    var d := c + [("password", JString(e.password))];
    assert d == RequiredStrings(e);
    assert Fields(a) == map["id" := JString(e.id)] by { FieldsSnoc([], a[0]); assert [] + a == a; }
    FieldsSnoc(a, ("title", JString(e.title)));
    FieldsSnoc(b, ("username", JString(e.username)));
    FieldsSnoc(c, ("password", JString(e.password)));
    var u := d + OmitEmpty("url", e.url);
    if e.url != "" { FieldsSnoc(d, ("url", JString(e.url))); } else { assert u == d; }
    var n := u + OmitEmpty("notes", e.notes);
    if e.notes != "" { FieldsSnoc(u, ("notes", JString(e.notes))); } else { assert n == u; }
    FieldsSnoc(n, ("created_at", created));
    FieldsSnoc(n + [("created_at", created)], ("updated_at", updated));
    assert EntryMembers(e, created, updated) == n + [("created_at", created)] + [("updated_at", updated)];
  }

  /** The fields of an encoded entry: one per emitted key. */
  lemma EntryFields(e: Entry, created: Json, updated: Json)
    ensures var f := Fields(EntryMembers(e, created, updated));
            && "id" in f && f["id"] == JString(e.id)
            && "title" in f && f["title"] == JString(e.title)
            && "username" in f && f["username"] == JString(e.username)
            && "password" in f && f["password"] == JString(e.password)
            && ("url" in f <==> e.url != "") && (e.url != "" ==> f["url"] == JString(e.url))
            && ("notes" in f <==> e.notes != "") && (e.notes != "" ==> f["notes"] == JString(e.notes))
            && "created_at" in f && f["created_at"] == created
            && "updated_at" in f && f["updated_at"] == updated
  {
    FieldsOfEntryMembers(e, created, updated);
  }

  /** Decoding an encoded entry gives the entry back; an omitted url or notes decodes to "". */
  lemma EntryRoundTrip(codec: JsonCodec, e: Entry)
    requires codec.Sound() && EncodeEntry(codec, e).Success?
    ensures DecodeEntry(codec, EncodeEntry(codec, e).value) == Success(e)
  {
    var created := JString(codec.formatTime(e.createdAt).value);
    var updated := JString(codec.formatTime(e.updatedAt).value);
    var ms := EntryMembers(e, created, updated);
    assert EncodeEntry(codec, e).value == JObject(ms);
    EntryFields(e, created, updated);
    var f := Fields(ms);
    assert DecodeString(f, "id") == Success(e.id);
    assert DecodeString(f, "title") == Success(e.title);
    assert DecodeString(f, "username") == Success(e.username);
    assert DecodeString(f, "password") == Success(e.password);
    assert DecodeString(f, "url") == Success(e.url);
    assert DecodeString(f, "notes") == Success(e.notes);
    assert DecodeTime(codec, f, "created_at") == Success(e.createdAt);
    assert DecodeTime(codec, f, "updated_at") == Success(e.updatedAt);
  }

  /** Each element decodes back to its entry, so the array does. */
  lemma EntriesRoundTrip(codec: JsonCodec, entries: seq<Entry>)
    requires codec.Sound() && EncodeEntries(codec, entries).Success?
    ensures DecodeEntries(codec, EncodeEntries(codec, entries).value) == Success(entries)
  {
    var items := EncodeEntries(codec, entries).value;
    forall i | 0 <= i < |items| ensures DecodeEntry(codec, items[i]) == Success(entries[i]) {
      EntryRoundTrip(codec, entries[i]);
    }
    var r := DecodeEntries(codec, items);
    assert r.value == entries;
  }

  /** For every encodable vault, Decode(Encode(v)) == v. */
  lemma {:induction false} VaultRoundTrip(codec: JsonCodec, v: Vault)
    requires codec.Sound() && Encode(codec, v).Success?
    ensures Decode(codec, Encode(codec, v).value) == Success(v)
  {
    var items := EncodeEntries(codec, v.entries).value;
    var j := JObject([("entries", JArray(items))]);
    assert Encode(codec, v).value == codec.marshal(j);
    assert codec.unmarshal(codec.marshal(j)) == Some(j);
    EntriesRoundTrip(codec, v.entries);
    DecodeSingleArray(codec, items, v.entries);
  }

  /** An object holding only an "entries" array decodes as the array's entries. */
  lemma DecodeSingleArray(codec: JsonCodec, items: seq<Json>, entries: seq<Entry>)
    requires DecodeEntries(codec, items) == Success(entries)
    ensures DecodeVault(codec, JObject([("entries", JArray(items))])) == Success(Vault(entries))
  {
    var ms := [("entries", JArray(items))];
    FieldsSnoc([], ms[0]);
    assert [] + ms == ms;
    assert Fields(ms) == map["entries" := JArray(items)];
  }

  /** A vault is encoded as one "entries" array holding each entry's encoding in sequence order. */
  lemma VaultShape(codec: JsonCodec, v: Vault)
    requires EncodeVault(codec, v).Success?
    ensures Keys(EncodeVault(codec, v).value.members) == ["entries"]
    ensures EncodeVault(codec, v).value.members[0].1.JArray?
    ensures var items := EncodeVault(codec, v).value.members[0].1.items;
            |items| == |v.entries| &&
            forall i :: 0 <= i < |items| ==> EncodeEntry(codec, v.entries[i]) == Success(items[i])
  {
  }
}
