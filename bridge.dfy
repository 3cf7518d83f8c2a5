/**
  Bridge: the two steps of WebTUIOBridge (server.py) between the WebSocket
  and the UDP socket. ParseJsonMessage decides, from the shape of a decoded
  JSON text, which packets to forward; ProcessMessages turns them into the
  datagram: nothing, a bare OSC message, or an OSC bundle.
 */
module Bridge {
  import opened Wrappers
  import opened Bytes
  import opened Json
  import opened OscEncoder

  // ---------------------------------------------------------------------
  // parse_json_message
  // ---------------------------------------------------------------------

  /** `d.get('bundle') is True`: the key is present and holds the JSON literal true. */
  predicate IsBundleFlag(fields: seq<(string, Json)>)
    ensures IsBundleFlag(fields) ==> HasKey(fields, "bundle")
  {
    Get(fields, "bundle") == Some(JBool(true))
  }

  /**
    The shapes parse_json_message recognises: an object with "address", an
    object flagged as a bundle, an object with "packets", or an array.
   */
  predicate Recognised(data: Json) {
    || data.JArr?
    || (data.JObj? && (HasKey(data.fields, "address") || IsBundleFlag(data.fields) || HasKey(data.fields, "packets")))
  }

  /**
    parse_json_message on the outcome of json.loads: `None` when the text
    was not JSON. The rules are tried in order: a message object becomes a
    one-element list; a bundle object yields its packets (a list, [] when
    absent, a lone packet wrapped in a list); an object with "packets" (with
    or without "timeTag") yields the packets value as it is; an array is
    returned as it is; anything else is None.
   */
  function ParseJsonMessage(decoded: Option<Json>): (r: Option<Json>)
    ensures r.Some? <==> decoded.Some? && Recognised(decoded.value)
    ensures decoded.Some? && decoded.value.JObj? && HasKey(decoded.value.fields, "address")
            ==> r == Some(JArr([decoded.value]))
    ensures decoded.Some? && decoded.value.JArr? ==> r == decoded
    ensures r.Some? && !r.value.JArr? ==>
              decoded.value.JObj? && !IsBundleFlag(decoded.value.fields)
              && Get(decoded.value.fields, "packets") == r
  {
    match decoded
    case None => None
    case Some(data) =>
      if data.JObj? && HasKey(data.fields, "address") then Some(JArr([data]))
      else if data.JObj? then
        if HasKey(data.fields, "bundle") && IsBundleFlag(data.fields) then
          var packets := GetOr(data.fields, "packets", JArr([]));
          Some(if packets.JArr? then packets else JArr([packets]))
        else if HasKey(data.fields, "timeTag") && HasKey(data.fields, "packets") then
          Some(GetOr(data.fields, "packets", JArr([])))
        else if HasKey(data.fields, "packets") then
          Some(GetOr(data.fields, "packets", JArr([])))
        else None
      else if data.JArr? then Some(data)
      else None
  }

  /** A bundle object always yields a list: its packets, or the lone packet wrapped in one. */
  lemma BundleYieldsList(fields: seq<(string, Json)>)
    requires !HasKey(fields, "address") && IsBundleFlag(fields)
    ensures var r := ParseJsonMessage(Some(JObj(fields)));
      && r.Some? && r.value.JArr?
      && (!HasKey(fields, "packets") ==> r.value.items == [])
      && (HasKey(fields, "packets") && Get(fields, "packets").value.JArr? ==> r == Get(fields, "packets"))
      && (HasKey(fields, "packets") && !Get(fields, "packets").value.JArr? ==> r.value.items == [Get(fields, "packets").value])
  {
  }

  /** The fields of a dict with one key deleted. */
  function Without(fields: seq<(string, Json)>, key: string): seq<(string, Json)>
  {
    if fields == [] then []
    else if fields[0].0 == key then Without(fields[1..], key)
    else [fields[0]] + Without(fields[1..], key)
  }

  /** Deleting a key removes exactly that key and leaves every other lookup alone. */
  lemma {:induction false} GetWithout(fields: seq<(string, Json)>, key: string, other: string)
    ensures Get(Without(fields, key), other) == if other == key then None else Get(fields, other)
    decreases |fields|
  {
    if fields != [] {
      GetWithout(fields[1..], key, other);
    }
  }

  /** What parse_json_message makes of an object, from its three lookups alone. */
  function ObjectRule(address: Option<Json>, bundle: Option<Json>, packets: Option<Json>): Option<Json>
  {
    if address.Some? then None
    else if bundle == Some(JBool(true)) then
      match packets
      case None => Some(JArr([]))
      case Some(p) => Some(if p.JArr? then p else JArr([p]))
    else packets
  }

  /** An object without "address" is parsed by its "bundle" and "packets" entries only. */
  lemma ParseObject(fields: seq<(string, Json)>)
    requires !HasKey(fields, "address")
    ensures ParseJsonMessage(Some(JObj(fields)))
            == ObjectRule(Get(fields, "address"), Get(fields, "bundle"), Get(fields, "packets"))
  {
  }

  /**
    The time tag a client sends is never looked at: deleting "timeTag" from
    an object that is not itself a message leaves the parse unchanged.
   */
  lemma ParseIgnoresTimeTag(fields: seq<(string, Json)>)
    requires !HasKey(fields, "address")
    ensures ParseJsonMessage(Some(JObj(Without(fields, "timeTag")))) == ParseJsonMessage(Some(JObj(fields)))
  {
    var w := Without(fields, "timeTag");
    GetWithout(fields, "timeTag", "address");
    GetWithout(fields, "timeTag", "bundle");
    GetWithout(fields, "timeTag", "packets");
    ParseObject(fields);
    ParseObject(w);
  }

  // ---------------------------------------------------------------------
  // process_messages
  // ---------------------------------------------------------------------

  /**
    Python's truth value of a decoded JSON value: None, false, zero and
    empty containers are false. A float is judged by its binary32 image, so
    ±0.0 is false.
   */
  predicate Truthy(v: Json) {
    match v
    case JNull => false
    case JBool(b) => b
    case JInt(i) => i != 0
    case JFloat(f) => !(f.Single? && f.bits % 0x8000_0000 == 0)
    case JStr(s) => s != ""
    case JArr(items) => items != []
    case JObj(fields) => fields != []
  }

  /** len(messages): TypeError for a number or a bool. */
  function Length(v: Json): (r: Result<nat, Error>)
    ensures r.Ok? <==> v.JStr? || v.JArr? || v.JObj?
    ensures v.JArr? ==> r == Ok(|v.items|)
  {
    match v
    case JStr(s) => Ok(|s|)
    case JArr(items) => Ok(|items|)
    case JObj(fields) => Ok(|fields|)
    case _ => Err(NoLength)
  }

  /** messages[0] on a value of length 1: a str's first character, a list's element; a dict has no key 0. */
  function First(v: Json): (r: Result<Json, Error>)
    requires Length(v) == Ok(1)
    ensures v.JArr? ==> r == Ok(v.items[0])
    ensures v.JObj? ==> r == Err(IntKeyMissing(0))
  {
    match v
    case JStr(s) => Ok(JStr([s[0]]))
    case JArr(items) => Ok(items[0])
    case JObj(_) => Err(IntKeyMissing(0))
  }

  /**
    The lone-message path: encode_message(msg.get('address', ''),
    msg.get('args', [])). Only a dict has .get.
   */
  function SingleMessage(msg: Json, strOf: Json -> string): (r: Result<seq<byte>, Error>)
    ensures !msg.JObj? ==> r == Err(NoGetMethod)
    ensures r.Ok? ==> |r.value| % 4 == 0 && |r.value| >= 4
  {
    if !msg.JObj? then Err(NoGetMethod)
    else MessageBytes(GetOr(msg.fields, "address", JStr("")), GetOr(msg.fields, "args", JArr([])), strOf)
  }

  /**
    A lone packet without "address": the address is the empty string, which
    pad_string turns into no bytes at all, so the message starts right away
    with its padded type tags.
   */
  lemma SingleMessageNoAddress(fields: seq<(string, Json)>, strOf: Json -> string)
    requires !HasKey(fields, "address")
    ensures SingleMessage(JObj(fields), strOf) == MessageBytes(JStr(""), GetOr(fields, "args", JArr([])), strOf)
    ensures SingleMessage(JObj(fields), strOf).Ok? ==>
              var items := Iterate(GetOr(fields, "args", JArr([]))).value;
              SingleMessage(JObj(fields), strOf).value == PadString(TypeTags(items)) + ArgBytes(items, strOf).value
  {
    var address := GetOr(fields, "address", JStr(""));
    EmptyAddressMessage(address.s, GetOr(fields, "args", JArr([])), strOf);
  }

  /**
    A lone packet without "args": there are no arguments, so the message is
    the padded address followed by the type tag string "," and its three NULs.
   */
  lemma SingleMessageNoArgs(fields: seq<(string, Json)>, strOf: Json -> string)
    requires !HasKey(fields, "args")
    ensures SingleMessage(JObj(fields), strOf) == MessageBytes(GetOr(fields, "address", JStr("")), JArr([]), strOf)
    ensures GetOr(fields, "address", JStr("")).JStr? ==>
              SingleMessage(JObj(fields), strOf) == Ok(PadString(GetOr(fields, "address", JStr("")).s) + [0x2C, 0, 0, 0])
  {
    var address := GetOr(fields, "address", JStr(""));
    if address.JStr? {
      NoArgsMessage(address.s, strOf);
    }
  }

  /**
    process_messages: nothing for an empty (false) value, the bare message
    for exactly one message, and a bundle for more. `nowMillis` is the
    wall-clock time the source passes as the bundle's time tag; the bundle
    does not depend on it. The datagram is empty exactly when there was
    nothing to send, and a packets value that is not a list, but is true,
    always raises.
   */
  function ProcessMessages(messages: Json, nowMillis: int, strOf: Json -> string): (r: Result<seq<byte>, Error>)
    ensures r == Ok([]) <==> !Truthy(messages)
    ensures messages.JArr? && |messages.items| == 1 ==> r == SingleMessage(messages.items[0], strOf)
    ensures messages.JArr? && |messages.items| >= 2 ==> r == BundleBytes(0, messages.items, strOf)
    ensures Truthy(messages) && !messages.JArr? ==> r.Err?
  {
    if !Truthy(messages) then Ok([])
    else
      match Length(messages)
      case Err(e) => Err(e)
      case Ok(n) =>
        if n == 1 then
          match First(messages)
          case Err(e) => Err(e)
          case Ok(msg) => SingleMessage(msg, strOf)
        else
          match Iterate(messages)
          case Err(e) => Err(e)
          case Ok(ms) => BundleBytes(nowMillis, ms, strOf)
  }

  // ---------------------------------------------------------------------
  // The three payload shapes of the test client (test_client.py)
  // ---------------------------------------------------------------------

  /** Test 1: a lone message object is forwarded as a bare OSC message, not a bundle. */
  lemma LoneMessageIsBare(address: string, args: seq<Json>, nowMillis: int, strOf: Json -> string)
    ensures var m := JObj([("address", JStr(address)), ("args", JArr(args))]);
      && ParseJsonMessage(Some(m)) == Some(JArr([m]))
      && ProcessMessages(JArr([m]), nowMillis, strOf) == MessageBytes(JStr(address), JArr(args), strOf)
  {
    var m := JObj([("address", JStr(address)), ("args", JArr(args))]);
    assert GetOr(m.fields, "address", JStr("")) == JStr(address);
    assert m.fields[1..] == [("args", JArr(args))];
    assert Get(m.fields, "args") == Some(JArr(args));
  }

  /**
    Test 2: an object flagged as a bundle with two or more packets is
    forwarded as one OSC bundle of those packets, in order, with time tag 1.
   */
  lemma FlaggedBundle(packets: seq<Json>, nowMillis: int, strOf: Json -> string)
    requires |packets| >= 2
    ensures var data := JObj([("bundle", JBool(true)), ("packets", JArr(packets))]);
      && ParseJsonMessage(Some(data)) == Some(JArr(packets))
      && ProcessMessages(JArr(packets), nowMillis, strOf) == BundleBytes(0, packets, strOf)
  {
    var data := JObj([("bundle", JBool(true)), ("packets", JArr(packets))]);
    assert Get(data.fields, "address") == None;
    assert Get(data.fields, "bundle") == Some(JBool(true));
    assert Get(data.fields, "packets") == Some(JArr(packets));
  }

  /**
    Test 3: an object with a time tag and a single packet is forwarded as
    that packet's bare message; neither a bundle nor the client's time tag
    reaches the wire.
   */
  lemma TimeTaggedSinglePacket(timeTag: int, packet: Json, nowMillis: int, strOf: Json -> string)
    ensures var data := JObj([("timeTag", JInt(timeTag)), ("packets", JArr([packet]))]);
      && ParseJsonMessage(Some(data)) == Some(JArr([packet]))
      && ProcessMessages(JArr([packet]), nowMillis, strOf) == SingleMessage(packet, strOf)
  {
    var data := JObj([("timeTag", JInt(timeTag)), ("packets", JArr([packet]))]);
    assert Get(data.fields, "address") == None;
    assert Get(data.fields, "bundle") == None;
    assert Get(data.fields, "timeTag") == Some(JInt(timeTag));
    assert Get(data.fields, "packets") == Some(JArr([packet]));
  }

  /**
    The defaults apply to a lone message only: a message without "args" is
    sent alone with no arguments, but in a bundle the same message raises
    KeyError('args').
   */
  lemma DefaultsOnlyWhenAlone(address: string, nowMillis: int, strOf: Json -> string)
    ensures var m := JObj([("address", JStr(address))]);
      && ProcessMessages(JArr([m]), nowMillis, strOf) == MessageBytes(JStr(address), JArr([]), strOf)
      && ProcessMessages(JArr([m]), nowMillis, strOf).Ok?
      && ProcessMessages(JArr([m, m]), nowMillis, strOf) == Err(MissingKey("args"))
  {
    var m := JObj([("address", JStr(address))]);
    assert Get(m.fields, "args") == None;
    assert ArgBytes([], strOf) == Ok([]);
    var rs := PacketResults([m, m], strOf);
    PacketResultsAt([m, m], 0, strOf);
    assert rs[0] == Err(MissingKey("args"));
    CollectStep(rs, 0);
    assert rs[..0] == [];
    CollectStopsAtError(rs, 1);
  }
}
