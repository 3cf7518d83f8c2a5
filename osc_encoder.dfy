/**
  OscEncoder: the binary Open Sound Control 1.0 serialiser of the bridge
  (server.py, class OSCEncoder). It turns an address and a list of decoded
  JSON arguments into an OSC message, and a list of message dicts into an
  OSC bundle. Every Python exception the encoder can raise is an `Error`.

  Two behaviours of the source are kept as written although OSC 1.0 says
  otherwise: an OSC-string whose byte length is already a multiple of 4 gets
  no terminating NUL (PadStringReadBack shows what an OSC 1.0 reader makes of
  it), and the bundle time tag is always 1 ("immediately") whatever time tag
  the caller passes.
 */
module OscEncoder {
  import opened Wrappers
  import opened Bytes
  import opened Json

  /** The exceptions the encoder raises, by cause. */
  datatype Error =
    | AddressNotString        // pad_string calls .encode on an address that is not a str
    | NotIterable             // `for arg in args` over a number, a bool or None
    | Int32OutOfRange(v: int) // struct.pack('>i', v) outside [-2^31, 2^31)
    | FloatOutOfRange         // struct.pack('>f', x) for a finite x beyond binary32 range
    | SizeOutOfRange(n: nat)  // struct.pack('>I', n) for a message of 2^32 bytes or more
    | NotSubscriptable        // msg['address'] on a packet that is not a dict
    | MissingKey(key: string) // KeyError from msg['address'] or msg['args']
    | NoGetMethod             // msg.get(...) on a packet that is not a dict
    | NoLength                // len(messages) on a number or a bool (process_messages)
    | IntKeyMissing(k: int)   // messages[0] on a dict, whose keys are all str (process_messages)

  const INT32_MIN: int := -0x8000_0000
  const INT32_BOUND: int := 0x8000_0000
  const UINT32_BOUND: int := 0x1_0000_0000

  // ---------------------------------------------------------------------
  // OSC-strings
  // ---------------------------------------------------------------------

  /** The number of NUL bytes pad_string appends to n bytes. */
  function PaddingLength(n: nat): (p: nat)
    ensures p < 4 && (n + p) % 4 == 0
    ensures n > 0 ==> n + p >= 4
  {
    (4 - n % 4) % 4
  }

  /**
    pad_string: the UTF-8 bytes of s followed by zero to three NUL bytes, up
    to the least multiple of 4 that is at least their length. No NUL at all
    is added when that length is already a multiple of 4. encode_string is
    pad_string, so a string argument is laid out exactly like the address.
   */
  function PadString(s: string): (r: seq<byte>)
    ensures |r| % 4 == 0
    ensures |Utf8(s)| <= |r| < |Utf8(s)| + 4
    ensures r[..|Utf8(s)|] == Utf8(s)
    ensures forall i :: |Utf8(s)| <= i < |r| ==> r[i] == 0
    ensures |r| == |Utf8(s)| <==> |Utf8(s)| % 4 == 0
  {
    var b := Utf8(s);
    b + Zeros(PaddingLength(|b|))
  }

  /** The index of the first zero byte of b, if there is one. */
  function FirstZero(b: seq<byte>): (r: Option<nat>)
    ensures r.Some? ==> r.value < |b| && b[r.value] == 0
    ensures r.Some? ==> forall j :: 0 <= j < r.value ==> b[j] != 0
    ensures r.None? ==> 0 !in b
  {
    if b == [] then None
    else if b[0] == 0 then Some(0)
    else
      match FirstZero(b[1..])
      case None =>
        assert b == [b[0]] + b[1..];
        None
      case Some(k) =>
        assert forall j :: 1 <= j < k + 1 ==> b[j] == b[1..][j - 1];
        Some(k + 1)
  }

  /**
    How an OSC 1.0 receiver reads an OSC-string from the front of b: the
    bytes before the first NUL; that NUL and the padding after it, up to the
    next multiple of 4, are skipped. None when there is no NUL or the padding
    runs past the end. The second component is what follows the string.
   */
  function ReadOscString(b: seq<byte>): Option<(seq<byte>, seq<byte>)>
  {
    match FirstZero(b)
    case None => None
    case Some(k) =>
      var end := k + 1 + PaddingLength(k + 1);
      if end <= |b| then Some((b[..k], b[end..])) else None
  }

  /** A NUL-free string whose length is not a multiple of 4 is read back, padding skipped. */
  lemma ReadTerminated(u: seq<byte>, rest: seq<byte>)
    requires 0 !in u && |u| % 4 != 0
    ensures ReadOscString(u + Zeros(PaddingLength(|u|)) + rest) == Some((u, rest))
  {
    var p := PaddingLength(|u|);
    var b := u + Zeros(p) + rest;
    assert b[|u|] == 0;
    var z := FirstZero(b);
    assert z == Some(|u|);
    assert |u| + 1 + PaddingLength(|u| + 1) == |u| + p;
    assert b[..|u|] == u;
    assert b[|u| + p..] == rest;
  }

  /** A NUL-free string whose length is a multiple of 4 is not read back, whatever follows it. */
  lemma ReadUnterminated(u: seq<byte>, rest: seq<byte>)
    requires 0 !in u && |u| % 4 == 0
    ensures ReadOscString(u + Zeros(PaddingLength(|u|)) + rest) != Some((u, rest))
  {
    var b := u + rest;
    assert u + Zeros(PaddingLength(|u|)) + rest == b;
    var z := FirstZero(b);
    if z.Some? && z.value == |u| {
      assert PaddingLength(|u| + 1) == 3;
    }
  }

  /** A string holding a NUL is cut short at it. */
  lemma ReadTruncated(u: seq<byte>, pad: seq<byte>, rest: seq<byte>)
    requires 0 in u
    ensures ReadOscString(u + pad + rest) != Some((u, rest))
  {
    var b := u + pad + rest;
    var i :| 0 <= i < |u| && u[i] == 0;
    assert b[i] == 0;
    var z := FirstZero(b);
    assert z.Some? && z.value <= i;
  }

  /**
    An OSC 1.0 reader gets back exactly the string and the bytes after it if
    and only if the string holds no NUL and its UTF-8 length is NOT a
    multiple of 4: the strings pad_string leaves unterminated ("fseq",
    "/abc", ",sif") cannot be read back.
   */
  lemma PadStringReadBack(s: string, rest: seq<byte>)
    ensures ReadOscString(PadString(s) + rest) == Some((Utf8(s), rest))
            <==> |Utf8(s)| % 4 != 0 && '\0' !in s
  {
    var u := Utf8(s);
    var pad := Zeros(PaddingLength(|u|));
    assert PadString(s) == u + pad;
    if '\0' in s {
      ReadTruncated(u, pad, rest);
    } else if |u| % 4 == 0 {
      ReadUnterminated(u, rest);
    } else {
      ReadTerminated(u, rest);
    }
  }

  /** "fseq", the TUIO frame-sequence command, is sent with no terminating NUL. */
  lemma FseqUnterminated()
    ensures PadString("fseq") == [0x66, 0x73, 0x65, 0x71]
  {
    var s := "fseq";
    assert IsAscii(s) && |s| == 4;
    AsciiUnpadded(s);
  }

  /** An ASCII string whose length is a multiple of 4 is sent as its code points and nothing else. */
  lemma AsciiUnpadded(s: string)
    requires IsAscii(s) && |s| % 4 == 0
    ensures |PadString(s)| == |s|
    ensures forall i :: 0 <= i < |s| ==> PadString(s)[i] == s[i] as int
  {
  }

  // ---------------------------------------------------------------------
  // Atomic data
  // ---------------------------------------------------------------------

  /** struct.unpack('>i', b): the two's-complement reading of four big-endian bytes. */
  function DecodeInt32(b: seq<byte>): (v: int)
    requires |b| == 4
    ensures INT32_MIN <= v < INT32_BOUND
  {
    Pow256Four();
    var u := FromBigEndian(b);
    if u < INT32_BOUND then u else u - UINT32_BOUND
  }

  /**
    encode_int32: four big-endian two's-complement bytes that DecodeInt32
    reads back as v; struct.error for v outside the int32 range.
   */
  function EncodeInt32(v: int): (r: Result<seq<byte>, Error>)
    ensures r.Ok? <==> INT32_MIN <= v < INT32_BOUND
    ensures r.Ok? ==> |r.value| == 4 && DecodeInt32(r.value) == v
    ensures r.Err? ==> r.error == Int32OutOfRange(v)
  {
    if INT32_MIN <= v < INT32_BOUND then
      var u := if v < 0 then v + UINT32_BOUND else v;
      Pow256Four();
      BigEndianRoundTrip(u, 4);
      Ok(BigEndian(u, 4))
    else
      Err(Int32OutOfRange(v))
  }

  /** Every four bytes are the encoding of the int32 they decode to. */
  lemma DecodeThenEncodeInt32(b: seq<byte>)
    requires |b| == 4
    ensures EncodeInt32(DecodeInt32(b)) == Ok(b)
  {
    Pow256Four();
    FromBigEndianRoundTrip(b);
  }

  /** The top bit of the first byte is the sign. */
  lemma Int32SignBit(v: int)
    requires INT32_MIN <= v < INT32_BOUND
    ensures EncodeInt32(v).value[0] >= 0x80 <==> v < 0
  {
    var u := if v < 0 then v + UINT32_BOUND else v;
    var b := BigEndian(u, 4);
    assert b[0] == BigEndian(u / 256, 3)[0] == BigEndian(u / 256 / 256, 2)[0]
        == BigEndian(u / 256 / 256 / 256, 1)[0] == u / 256 / 256 / 256 % 256;
    assert u / 256 / 256 / 256 == u / 0x100_0000;
  }

  /**
    encode_float32: four big-endian bytes holding the binary32 pattern;
    OverflowError for a double beyond binary32 range.
   */
  function EncodeFloat32(f: Float): (r: Result<seq<byte>, Error>)
    ensures r.Ok? <==> f.Single?
    ensures r.Ok? ==> |r.value| == 4 && FromBigEndian(r.value) == f.bits
    ensures r.Err? ==> r.error == FloatOutOfRange
  {
    match f
    case Single(bits) =>
      Pow256Four();
      BigEndianRoundTrip(bits, 4);
      Ok(BigEndian(bits, 4))
    case Overflow => Err(FloatOutOfRange)
  }

  // ---------------------------------------------------------------------
  // Arguments
  // ---------------------------------------------------------------------

  /**
    The values `for arg in args` visits: a list's elements, a string's
    characters (each a one-character str), a dict's keys; a number, a bool
    or None raises TypeError.
   */
  function Iterate(v: Json): (r: Result<seq<Json>, Error>)
    ensures r.Ok? <==> v.JArr? || v.JStr? || v.JObj?
    ensures v.JArr? ==> r == Ok(v.items)
    ensures r.Err? ==> r.error == NotIterable
  {
    match v
    case JArr(items) => Ok(items)
    case JStr(s) => Ok(seq(|s|, i requires 0 <= i < |s| => JStr([s[i]])))
    case JObj(fields) => Ok(seq(|fields|, i requires 0 <= i < |fields| => JStr(fields[i].0)))
    case _ => Err(NotIterable)
  }

  /**
    The type tag encode_message writes for one argument: 's' for a str, 'i'
    for an int or a bool (bool is a subclass of int), 'f' for a float, and 's'
    for anything else, which is sent as its str().
   */
  function Tag(arg: Json): (t: char)
    ensures t == 'i' <==> arg.JInt? || arg.JBool?
    ensures t == 'f' <==> arg.JFloat?
    ensures t == 's' <==> !(arg.JInt? || arg.JBool? || arg.JFloat?)
  {
    match arg
    case JStr(_) => 's'
    case JBool(_) => 'i'
    case JInt(_) => 'i'
    case JFloat(_) => 'f'
    case _ => 's'
  }

  /**
    Python's str(arg) for the arguments sent with tag 's': a str is itself,
    None is "None", and for a list or a dict the text comes from `strOf`
    (Python's repr of containers is not part of this model).
   */
  function StrOf(arg: Json, strOf: Json -> string): (r: string)
    ensures arg.JStr? ==> r == arg.s
    ensures !arg.JStr? && !arg.JNull? ==> r == strOf(arg)
  {
    match arg
    case JStr(s) => s
    case JNull => "None"
    case _ => strOf(arg)
  }

  /** Python's int(arg) for the arguments sent with tag 'i'. */
  function IntOf(arg: Json): (r: int)
    ensures arg.JInt? ==> r == arg.i
    ensures arg.JBool? ==> 0 <= r <= 1 && (r == 1 <==> arg.b)
  {
    match arg
    case JBool(b) => if b then 1 else 0
    case JInt(i) => i
    case _ => 0
  }

  /** The bytes one argument contributes, in the branch of encode_message its type selects. */
  function EncodeArg(arg: Json, strOf: Json -> string): (r: Result<seq<byte>, Error>)
    ensures r.Ok? ==> |r.value| % 4 == 0
  {
    match arg
    case JStr(s) => Ok(PadString(s))
    case JBool(b) => EncodeInt32(if b then 1 else 0)
    case JInt(i) => EncodeInt32(i)
    case JFloat(f) => EncodeFloat32(f)
    case _ => Ok(PadString(StrOf(arg, strOf)))
  }

  /**
    Each argument's bytes agree with its tag: an 's' argument is its str()
    as an OSC-string and never fails; an 'i' argument is four bytes that
    read back as int(arg), and fails exactly outside the int32 range; an 'f'
    argument is the four bytes of its binary32 pattern, and fails exactly on
    overflow.
   */
  lemma EncodeArgMatchesTag(arg: Json, strOf: Json -> string)
    ensures var r := EncodeArg(arg, strOf);
      && (Tag(arg) == 's' ==> r == Ok(PadString(StrOf(arg, strOf))))
      && (Tag(arg) == 'i' ==> (r.Ok? <==> INT32_MIN <= IntOf(arg) < INT32_BOUND))
      && (Tag(arg) == 'i' && r.Ok? ==> |r.value| == 4 && DecodeInt32(r.value) == IntOf(arg))
      && (Tag(arg) == 'f' ==> (r.Ok? <==> arg.f.Single?))
      && (Tag(arg) == 'f' && r.Ok? ==> |r.value| == 4 && FromBigEndian(r.value) == arg.f.bits)
  {
  }

  /** The type tag string: ',' then one tag per argument, in argument order. */
  function TypeTags(args: seq<Json>): (t: string)
    ensures |t| == |args| + 1 && t[0] == ','
    ensures forall i :: 0 <= i < |args| ==> t[i + 1] == Tag(args[i])
  {
    if args == [] then ","
    else TypeTags(args[..|args| - 1]) + [Tag(args[|args| - 1])]
  }

  /** The type tag string is ASCII and holds no NUL. */
  lemma TypeTagsAscii(args: seq<Json>)
    ensures IsAscii(TypeTags(args)) && '\0' !in TypeTags(args)
    ensures |Utf8(TypeTags(args))| == |args| + 1
  {
    var t := TypeTags(args);
    forall i | 0 <= i < |t|
      ensures t[i] in {',', 's', 'i', 'f'}
    {
      if i > 0 {
        assert t[i] == Tag(args[i - 1]);
      }
    }
  }

  lemma AlignedConcat(a: seq<byte>, b: seq<byte>)
    requires |a| % 4 == 0 && |b| % 4 == 0
    ensures |a + b| % 4 == 0
  {
  }

  /** The padded address and the padded type tags end on a 4-byte boundary, after at least 4 bytes. */
  lemma HeadAligned(address: string, tags: string)
    requires tags != ""
    ensures |PadString(address) + PadString(tags)| % 4 == 0
    ensures |PadString(address) + PadString(tags)| >= 4
  {
    var a := PadString(address);
    var t := PadString(tags);
    assert |Utf8(tags)| >= 1;
    assert t == Utf8(tags) + Zeros(PaddingLength(|Utf8(tags)|));
    AlignedConcat(a, t);
  }

  /**
    arg_bytes: the argument encodings concatenated in order. It fails exactly
    when some argument cannot be encoded, with that argument's error.
   */
  function ArgBytes(args: seq<Json>, strOf: Json -> string): (r: Result<seq<byte>, Error>)
    ensures r.Ok? ==> |r.value| % 4 == 0
  {
    if args == [] then Ok([])
    else
      var init := args[..|args| - 1];
      match ArgBytes(init, strOf)
      case Err(e) => Err(e)
      case Ok(prefix) =>
        match EncodeArg(args[|args| - 1], strOf)
        case Err(e) => Err(e)
        case Ok(b) =>
          AlignedConcat(prefix, b);
          Ok(prefix + b)
  }

  /**
    The arguments encode exactly when each of them does; when they do not,
    the error is that of one of them.
   */
  lemma {:induction false} ArgBytesSucceeds(args: seq<Json>, strOf: Json -> string)
    ensures ArgBytes(args, strOf).Ok? <==> forall i :: 0 <= i < |args| ==> EncodeArg(args[i], strOf).Ok?
    ensures ArgBytes(args, strOf).Err? ==>
              exists k :: 0 <= k < |args| && EncodeArg(args[k], strOf) == Err(ArgBytes(args, strOf).error)
    decreases |args|
  {
    if args != [] {
      var init := args[..|args| - 1];
      var last := |args| - 1;
      ArgBytesSucceeds(init, strOf);
      match ArgBytes(init, strOf)
      case Err(e) =>
        var k :| 0 <= k < |init| && EncodeArg(init[k], strOf) == Err(e);
        assert args[k] == init[k];
      case Ok(_) =>
        if EncodeArg(args[last], strOf).Ok? {
          AllEncode(init, args, strOf);
        }
    }
  }

  /** Every argument encodes when all but the last do and the last does too. */
  lemma AllEncode(init: seq<Json>, args: seq<Json>, strOf: Json -> string)
    requires args != [] && init == args[..|args| - 1]
    requires forall i :: 0 <= i < |init| ==> EncodeArg(init[i], strOf).Ok?
    requires EncodeArg(args[|args| - 1], strOf).Ok?
    ensures forall i :: 0 <= i < |args| ==> EncodeArg(args[i], strOf).Ok?
  {
    forall i | 0 <= i < |args|
      ensures EncodeArg(args[i], strOf).Ok?
    {
      if i < |init| {
        assert args[i] == init[i];
      }
    }
  }

  /** Once a prefix of the arguments fails, the whole list fails with the same error. */
  lemma {:induction false} ArgBytesStopsAtError(args: seq<Json>, k: nat, strOf: Json -> string)
    requires k <= |args|
    requires ArgBytes(args[..k], strOf).Err?
    ensures ArgBytes(args, strOf) == ArgBytes(args[..k], strOf)
    decreases |args|
  {
    if k < |args| {
      var init := args[..|args| - 1];
      assert init[..k] == args[..k];
      ArgBytesStopsAtError(init, k, strOf);
    } else {
      assert args[..k] == args;
    }
  }

  // ---------------------------------------------------------------------
  // Messages
  // ---------------------------------------------------------------------

  /**
    encode_message: the padded address, then the padded type tag string,
    then the arguments. It raises when the address is not a str, when args
    cannot be iterated, or when an argument cannot be encoded.
   */
  function MessageBytes(address: Json, args: Json, strOf: Json -> string): (r: Result<seq<byte>, Error>)
    ensures !address.JStr? ==> r == Err(AddressNotString)
    ensures r.Ok? ==> address.JStr? && Iterate(args).Ok?
    ensures r.Ok? ==> |r.value| % 4 == 0 && |r.value| >= 4
  {
    if !address.JStr? then Err(AddressNotString)
    else
      match Iterate(args)
      case Err(e) => Err(e)
      case Ok(items) =>
        match ArgBytes(items, strOf)
        case Err(e) => Err(e)
        case Ok(argBytes) =>
          var head := PadString(address.s) + PadString(TypeTags(items));
          HeadAligned(address.s, TypeTags(items));
          AlignedConcat(head, argBytes);
          Ok(head + argBytes)
  }

  /**
    encode_message succeeds exactly when the address is a str, args can be
    iterated and every argument can be encoded.
   */
  lemma MessageBytesSucceeds(address: Json, args: Json, strOf: Json -> string)
    ensures MessageBytes(address, args, strOf).Ok?
            <==> address.JStr? && Iterate(args).Ok?
                 && forall i :: 0 <= i < |Iterate(args).value| ==> EncodeArg(Iterate(args).value[i], strOf).Ok?
  {
    if address.JStr? && Iterate(args).Ok? {
      ArgBytesSucceeds(Iterate(args).value, strOf);
    }
  }

  /**
    A message is its padded address, then its padded type tag string, then
    its arguments' bytes, with nothing between or after them.
   */
  lemma MessageLayout(address: Json, args: Json, strOf: Json -> string)
    requires MessageBytes(address, args, strOf).Ok?
    ensures Iterate(args).Ok? && ArgBytes(Iterate(args).value, strOf).Ok?
    ensures MessageBytes(address, args, strOf).value
            == PadString(address.s) + PadString(TypeTags(Iterate(args).value)) + ArgBytes(Iterate(args).value, strOf).value
  {
  }

  /**
    What an OSC 1.0 reader recovers from a message: the address, exactly when
    it is NUL-free and its UTF-8 length is not a multiple of 4; then the type
    tag string, exactly when the number of arguments is not 3 modulo 4.
   */
  lemma MessageReadBack(address: Json, args: Json, strOf: Json -> string)
    requires MessageBytes(address, args, strOf).Ok?
    ensures
      var b := MessageBytes(address, args, strOf).value;
      var a := PadString(address.s);
      var tags := TypeTags(Iterate(args).value);
      && (ReadOscString(b) == Some((Utf8(address.s), b[|a|..]))
          <==> |Utf8(address.s)| % 4 != 0 && '\0' !in address.s)
      && (ReadOscString(b[|a|..]) == Some((Utf8(tags), b[|a| + |PadString(tags)|..]))
          <==> |Iterate(args).value| % 4 != 3)
  {
    var items := Iterate(args).value;
    var b := MessageBytes(address, args, strOf).value;
    var a := PadString(address.s);
    var tags := TypeTags(items);
    var t := PadString(tags);
    var argBytes := ArgBytes(items, strOf).value;
    MessageLayout(address, args, strOf);
    ThreeParts(a, t, argBytes);
    assert ReadOscString(b) == Some((Utf8(address.s), b[|a|..]))
           <==> |Utf8(address.s)| % 4 != 0 && '\0' !in address.s by {
      PadStringReadBack(address.s, t + argBytes);
    }
    assert ReadOscString(b[|a|..]) == Some((Utf8(tags), b[|a| + |t|..])) <==> |items| % 4 != 3 by {
      TypeTagsReadBack(items, argBytes);
    }
  }

  /** Where the second and the third part of a three-part concatenation start. */
  lemma ThreeParts(a: seq<byte>, t: seq<byte>, g: seq<byte>)
    ensures a + t + g == a + (t + g)
    ensures (a + t + g)[|a|..] == t + g
    ensures (a + t + g)[|a| + |t|..] == g
  {
  }

  lemma SuccessorAligned(n: nat)
    ensures (n + 1) % 4 == 0 <==> n % 4 == 3
  {
  }

  /** The type tag string is read back by an OSC 1.0 reader unless it has a multiple of 4 characters. */
  lemma TypeTagsReadBack(items: seq<Json>, rest: seq<byte>)
    ensures ReadOscString(PadString(TypeTags(items)) + rest) == Some((Utf8(TypeTags(items)), rest))
            <==> |items| % 4 != 3
  {
    var tags := TypeTags(items);
    assert |Utf8(tags)| == |items| + 1 && '\0' !in tags by {
      TypeTagsAscii(items);
    }
    SuccessorAligned(|items|);
    PadStringReadBack(tags, rest);
  }

  /** The TUIO "set" message carries seven arguments, so its type tag string ",sifffff" is sent unterminated. */
  lemma SetTypeTagsUnterminated(id: int, x: Float, y: Float, vx: Float, vy: Float, accel: Float)
    ensures
      var tags := TypeTags([JStr("set"), JInt(id), JFloat(x), JFloat(y), JFloat(vx), JFloat(vy), JFloat(accel)]);
      tags == ",sifffff" && PadString(tags) == Utf8(tags)
  {
    var args := [JStr("set"), JInt(id), JFloat(x), JFloat(y), JFloat(vx), JFloat(vy), JFloat(accel)];
    var tags := TypeTags(args);
    assert PadString(tags) == Utf8(tags) by {
      TypeTagsAscii(args);
    }
    assert tags[1] == Tag(args[0]) == 's';
    assert tags[2] == Tag(args[1]) == 'i';
    assert tags[3] == Tag(args[2]) == 'f';
    assert tags[4] == Tag(args[3]) == 'f';
    assert tags[5] == Tag(args[4]) == 'f';
    assert tags[6] == Tag(args[5]) == 'f';
    assert tags[7] == Tag(args[6]) == 'f';
    assert tags == ",sifffff";
  }

  /** encode_message, as the loop the source runs: type tags and argument bytes grow together. */
  method EncodeMessage(address: Json, args: Json, strOf: Json -> string) returns (r: Result<seq<byte>, Error>)
    ensures r == MessageBytes(address, args, strOf)
  {
    if !address.JStr? {
      return Err(AddressNotString);
    }
    var addressBytes := PadString(address.s);
    var iterated := Iterate(args);
    if iterated.Err? {
      return Err(iterated.error);
    }
    var typeTags, argBytes := EncodeArgs(iterated.value, strOf);
    if argBytes.Err? {
      return Err(argBytes.error);
    }
    MessageBytesOk(address, args, strOf);
    r := Ok(addressBytes + PadString(typeTags) + argBytes.value);
  }

  /**
    The loop of encode_message over its arguments: each appends its tag and
    its bytes, and the first that cannot be encoded stops the message.
   */
  method EncodeArgs(items: seq<Json>, strOf: Json -> string) returns (typeTags: string, r: Result<seq<byte>, Error>)
    ensures r == ArgBytes(items, strOf)
    ensures r.Ok? ==> typeTags == TypeTags(items)
  {
    typeTags := ",";
    var argBytes: seq<byte> := [];
    var i := 0;
    while i < |items|
      invariant 0 <= i <= |items|
      invariant typeTags == TypeTags(items[..i])
      invariant ArgBytes(items[..i], strOf) == Ok(argBytes)
    {
      var arg := items[i];
      var encoded := EncodeArg(arg, strOf);
      if encoded.Err? {
        ArgFails(items, i, encoded.error, strOf);
        return typeTags, Err(encoded.error);
      }
      ArgAppend(items, i, typeTags, argBytes, encoded.value, strOf);
      typeTags := typeTags + [Tag(arg)];
      argBytes := argBytes + encoded.value;
      i := i + 1;
    }
    assert items[..i] == items;
    r := Ok(argBytes);
  }

  /** One more argument: its tag is appended, and its bytes unless it fails. */
  lemma ArgStep(items: seq<Json>, i: nat, strOf: Json -> string)
    requires i < |items|
    ensures TypeTags(items[..i + 1]) == TypeTags(items[..i]) + [Tag(items[i])]
    ensures ArgBytes(items[..i], strOf).Ok? ==>
              ArgBytes(items[..i + 1], strOf)
              == match EncodeArg(items[i], strOf)
                 case Err(e) => Err(e)
                 case Ok(b) => Ok(ArgBytes(items[..i], strOf).value + b)
  {
    assert items[..i + 1][..i] == items[..i];
  }

  /** An argument that encodes extends both the type tags and the argument bytes. */
  lemma ArgAppend(items: seq<Json>, i: nat, typeTags: string, argBytes: seq<byte>, b: seq<byte>, strOf: Json -> string)
    requires i < |items| && typeTags == TypeTags(items[..i]) && ArgBytes(items[..i], strOf) == Ok(argBytes)
    requires EncodeArg(items[i], strOf) == Ok(b)
    ensures typeTags + [Tag(items[i])] == TypeTags(items[..i + 1])
    ensures ArgBytes(items[..i + 1], strOf) == Ok(argBytes + b)
  {
    ArgStep(items, i, strOf);
  }

  /** An argument that fails after the ones before it succeeded is the error of the whole list. */
  lemma ArgFails(items: seq<Json>, i: nat, e: Error, strOf: Json -> string)
    requires i < |items| && ArgBytes(items[..i], strOf).Ok?
    requires EncodeArg(items[i], strOf) == Err(e)
    ensures ArgBytes(items, strOf) == Err(e)
  {
    ArgStep(items, i, strOf);
    ArgBytesStopsAtError(items, i + 1, strOf);
  }

  /** MessageLayout entered from its success conditions: a str address and arguments that all encode. */
  lemma MessageBytesOk(address: Json, args: Json, strOf: Json -> string)
    requires address.JStr? && Iterate(args).Ok? && ArgBytes(Iterate(args).value, strOf).Ok?
    ensures MessageBytes(address, args, strOf)
            == Ok(PadString(address.s) + PadString(TypeTags(Iterate(args).value)) + ArgBytes(Iterate(args).value, strOf).value)
  {
    MessageLayout(address, args, strOf);
  }

  /** A message whose address is empty starts right away with its padded type tags. */
  lemma EmptyAddressMessage(address: string, args: Json, strOf: Json -> string)
    requires |address| == 0
    ensures MessageBytes(JStr(address), args, strOf).Ok? ==>
              var items := Iterate(args).value;
              MessageBytes(JStr(address), args, strOf).value == PadString(TypeTags(items)) + ArgBytes(items, strOf).value
  {
    if MessageBytes(JStr(address), args, strOf).Ok? {
      MessageLayout(JStr(address), args, strOf);
      EmptyPad(address);
      EmptyHead(PadString(address), PadString(TypeTags(Iterate(args).value)), ArgBytes(Iterate(args).value, strOf).value);
    }
  }

  /** Nothing in front of two parts leaves the two parts. */
  lemma EmptyHead(a: seq<byte>, t: seq<byte>, g: seq<byte>)
    requires a == []
    ensures a + t + g == t + g
  {
  }

  /** pad_string('') is no bytes at all. */
  lemma EmptyPad(s: string)
    requires |s| == 0
    ensures PadString(s) == []
  {
    assert Utf8(s) == [];
  }

  /** A message with no arguments is its padded address and the type tag string "," with three NULs. */
  lemma NoArgsMessage(address: string, strOf: Json -> string)
    ensures MessageBytes(JStr(address), JArr([]), strOf) == Ok(PadString(address) + [0x2C, 0, 0, 0])
  {
    assert ArgBytes([], strOf) == Ok([]);
    assert TypeTags([]) == ",";
    assert PadString(",") == [0x2C, 0, 0, 0] by {
      assert Utf8(",") == [0x2C];
      assert PaddingLength(1) == 3;
    }
    MessageBytesOk(JStr(address), JArr([]), strOf);
    assert PadString(address) + [0x2C, 0, 0, 0] + [] == PadString(address) + [0x2C, 0, 0, 0];
  }

  // ---------------------------------------------------------------------
  // Bundles
  // ---------------------------------------------------------------------

  /** "#bundle" and one NUL: the OSC 1.0 bundle marker. */
  const BUNDLE_MARKER: seq<byte> := [0x23, 0x62, 0x75, 0x6E, 0x64, 0x6C, 0x65, 0x00]

  /**
    The time tag encode_bundle writes: both of its branches pack (0, 1), the
    OSC 1.0 time tag meaning "immediately", whatever time_tag is.
   */
  function TimeTag(timeTag: int): (r: seq<byte>)
    ensures r == [0, 0, 0, 0, 0, 0, 0, 1]
  {
    if timeTag <= 0 then BigEndian(0, 4) + BigEndian(1, 4)
    else BigEndian(0, 4) + BigEndian(1, 4)
  }

  /** msg[key]: TypeError unless msg is a dict, KeyError when the key is absent. */
  function Subscript(msg: Json, key: string): (r: Result<Json, Error>)
    ensures r.Ok? <==> msg.JObj? && HasKey(msg.fields, key)
    ensures r.Ok? ==> Get(msg.fields, key) == Some(r.value)
  {
    if !msg.JObj? then Err(NotSubscriptable)
    else
      match Get(msg.fields, key)
      case None => Err(MissingKey(key))
      case Some(v) => Ok(v)
  }

  /** The bytes one bundle element holds: encode_message(msg['address'], msg['args']). */
  function PacketMessage(msg: Json, strOf: Json -> string): (r: Result<seq<byte>, Error>)
    ensures !msg.JObj? ==> r == Err(NotSubscriptable)
    ensures msg.JObj? && !HasKey(msg.fields, "address") ==> r == Err(MissingKey("address"))
    ensures msg.JObj? && HasKey(msg.fields, "address") && !HasKey(msg.fields, "args") ==> r == Err(MissingKey("args"))
    ensures msg.JObj? && HasKey(msg.fields, "address") && HasKey(msg.fields, "args") ==>
              r == MessageBytes(GetOr(msg.fields, "address", JNull), GetOr(msg.fields, "args", JNull), strOf)
  {
    match Subscript(msg, "address")
    case Err(e) => Err(e)
    case Ok(address) =>
      match Subscript(msg, "args")
      case Err(e) => Err(e)
      case Ok(args) => MessageBytes(address, args, strOf)
  }

  /** The outcome of encoding each packet, in input order. */
  function PacketResults(msgs: seq<Json>, strOf: Json -> string): (rs: seq<Result<seq<byte>, Error>>)
    ensures |rs| == |msgs|
  {
    if msgs == [] then []
    else PacketResults(msgs[..|msgs| - 1], strOf) + [PacketMessage(msgs[|msgs| - 1], strOf)]
  }

  /** Each entry is the outcome of its own packet. */
  lemma {:induction false} PacketResultsAt(msgs: seq<Json>, i: nat, strOf: Json -> string)
    requires i < |msgs|
    ensures PacketResults(msgs, strOf)[i] == PacketMessage(msgs[i], strOf)
    decreases |msgs|
  {
    var init := msgs[..|msgs| - 1];
    var rs := PacketResults(init, strOf);
    assert PacketResults(msgs, strOf) == rs + [PacketMessage(msgs[|msgs| - 1], strOf)];
    if i < |init| {
      PacketResultsAt(init, i, strOf);
      assert init[i] == msgs[i];
    }
  }

  lemma PacketResultsAll(msgs: seq<Json>, strOf: Json -> string)
    ensures forall i :: 0 <= i < |msgs| ==> PacketResults(msgs, strOf)[i] == PacketMessage(msgs[i], strOf)
  {
    forall i | 0 <= i < |msgs|
      ensures PacketResults(msgs, strOf)[i] == PacketMessage(msgs[i], strOf)
    {
      PacketResultsAt(msgs, i, strOf);
    }
  }

  /** Every message fits a uint32 size prefix. */
  predicate AllFit(parts: seq<seq<byte>>) {
    forall i :: 0 <= i < |parts| ==> |parts[i]| < UINT32_BOUND
  }

  /**
    The encoded messages, in order, as encode_bundle produces them one after
    the other: it stops at the first packet that raises, or whose message is
    too long for struct.pack('>I') to write its size.
   */
  function Collect(rs: seq<Result<seq<byte>, Error>>): (r: Result<seq<seq<byte>>, Error>)
    ensures r.Ok? ==> |r.value| == |rs| && AllFit(r.value)
  {
    if rs == [] then Ok([])
    else
      var init := rs[..|rs| - 1];
      match Collect(init)
      case Err(e) => Err(e)
      case Ok(parts) =>
        match rs[|rs| - 1]
        case Err(e) => Err(e)
        case Ok(m) =>
          if |m| < UINT32_BOUND then
            var all := parts + [m];
            assert forall i :: 0 <= i < |parts| ==> all[i] == parts[i];
            Ok(all)
          else Err(SizeOutOfRange(|m|))
  }

  /**
    The messages are collected exactly when every packet encodes to a
    message short enough for its size prefix, and then they are those
    messages in order.
   */
  lemma {:induction false} CollectOk(rs: seq<Result<seq<byte>, Error>>)
    ensures Collect(rs).Ok? <==> forall i :: 0 <= i < |rs| ==> rs[i].Ok? && |rs[i].value| < UINT32_BOUND
    ensures Collect(rs).Ok? ==> forall i :: 0 <= i < |rs| ==> rs[i] == Ok(Collect(rs).value[i])
  {
    if rs != [] {
      var init := rs[..|rs| - 1];
      CollectOk(init);
      assert forall i :: 0 <= i < |init| ==> init[i] == rs[i];
    }
  }

  /** Once a prefix fails, the whole list fails with the same error. */
  lemma {:induction false} CollectStopsAtError(rs: seq<Result<seq<byte>, Error>>, k: nat)
    requires k <= |rs|
    requires Collect(rs[..k]).Err?
    ensures Collect(rs) == Collect(rs[..k])
    decreases |rs|
  {
    if k < |rs| {
      var init := rs[..|rs| - 1];
      assert init[..k] == rs[..k];
      CollectStopsAtError(init, k);
    } else {
      assert rs[..k] == rs;
    }
  }

  /** One more result: its message is appended unless it failed or is too long. */
  lemma CollectStep(rs: seq<Result<seq<byte>, Error>>, i: nat)
    requires i < |rs|
    ensures Collect(rs[..i]).Ok? ==>
              Collect(rs[..i + 1])
              == match rs[i]
                 case Err(e) => Err(e)
                 case Ok(m) => if |m| < UINT32_BOUND then Ok(Collect(rs[..i]).value + [m]) else Err(SizeOutOfRange(|m|))
  {
    assert rs[..i + 1][..i] == rs[..i];
  }

  /** The bundle elements: each message preceded by its length as a big-endian uint32. */
  function Frame(parts: seq<seq<byte>>): seq<byte>
    requires AllFit(parts)
  {
    if parts == [] then []
    else
      var last := parts[|parts| - 1];
      Frame(parts[..|parts| - 1]) + BigEndian(|last|, 4) + last
  }

  /** Appending a message appends its size prefix and its bytes. */
  lemma FrameAppend(parts: seq<seq<byte>>, m: seq<byte>)
    requires AllFit(parts) && |m| < UINT32_BOUND
    ensures AllFit(parts + [m])
    ensures Frame(parts + [m]) == Frame(parts) + BigEndian(|m|, 4) + m
  {
    var all := parts + [m];
    assert forall i :: 0 <= i < |parts| ==> all[i] == parts[i];
    assert all[..|all| - 1] == parts;
  }

  /** The length of the elements: 4 + len for each message. */
  function FramedSize(parts: seq<seq<byte>>): nat
  {
    if parts == [] then 0 else FramedSize(parts[..|parts| - 1]) + 4 + |parts[|parts| - 1]|
  }

  lemma {:induction false} FrameLength(parts: seq<seq<byte>>)
    requires AllFit(parts)
    ensures |Frame(parts)| == FramedSize(parts)
  {
    if parts != [] {
      FrameLength(parts[..|parts| - 1]);
    }
  }

  /**
    How a receiver splits bundle elements: a 4-byte big-endian size, then
    that many bytes, until the input is used up. None when a size prefix is
    cut short or announces more bytes than remain.
   */
  function SplitFrames(b: seq<byte>): Option<seq<seq<byte>>>
    decreases |b|
  {
    if b == [] then Some([])
    else if |b| < 4 then None
    else
      var n := FromBigEndian(b[..4]);
      if |b| - 4 < n then None
      else
        match SplitFrames(b[4 + n..])
        case None => None
        case Some(rest) => Some([b[4..4 + n]] + rest)
  }

  /** A receiver takes one size-prefixed message off the front of the elements. */
  lemma SplitFramesFirst(m: seq<byte>, rest: seq<byte>)
    requires |m| < UINT32_BOUND
    ensures SplitFrames(BigEndian(|m|, 4) + m + rest)
            == match SplitFrames(rest) case None => None case Some(ps) => Some([m] + ps)
  {
    var b := BigEndian(|m|, 4) + m + rest;
    Pow256Four();
    BigEndianRoundTrip(|m|, 4);
    assert b[..4] == BigEndian(|m|, 4);
    assert b[4..4 + |m|] == m;
    assert b[4 + |m|..] == rest;
  }

  /** A non-empty input that splits starts with one size-prefixed message. */
  lemma SplitFramesHead(a: seq<byte>) returns (first: seq<byte>, tail: seq<byte>)
    requires a != [] && SplitFrames(a).Some?
    ensures |first| < UINT32_BOUND && |tail| < |a|
    ensures a == BigEndian(|first|, 4) + first + tail
    ensures SplitFrames(tail).Some? && SplitFrames(a).value == [first] + SplitFrames(tail).value
  {
    var n := FromBigEndian(a[..4]);
    first := a[4..4 + n];
    tail := a[4 + n..];
    Pow256Four();
    FromBigEndianRoundTrip(a[..4]);
    assert a == a[..4] + first + tail;
  }

  /** A lone element splits into its message. */
  lemma SplitFramesSingle(m: seq<byte>)
    requires |m| < UINT32_BOUND
    ensures SplitFrames(BigEndian(|m|, 4) + m) == Some([m])
  {
    SplitFramesFirst(m, []);
    assert SplitFrames([]) == Some([]);
    assert BigEndian(|m|, 4) + m + [] == BigEndian(|m|, 4) + m;
    assert [m] + [] == [m];
  }

  /** An element appended behind a leading message splits after it. */
  lemma SplitFramesAppendBehind(first: seq<byte>, tail: seq<byte>, frame: seq<byte>, ps: seq<seq<byte>>, m: seq<byte>)
    requires |first| < UINT32_BOUND
    requires SplitFrames(tail + frame) == Some(ps + [m])
    ensures SplitFrames(BigEndian(|first|, 4) + first + tail + frame) == Some([first] + ps + [m])
  {
    assert BigEndian(|first|, 4) + first + tail + frame == BigEndian(|first|, 4) + first + (tail + frame);
    SplitFramesFirst(first, tail + frame);
    assert [first] + (ps + [m]) == [first] + ps + [m];
  }

  lemma {:induction false} SplitFramesAppend(a: seq<byte>, m: seq<byte>)
    requires SplitFrames(a).Some?
    requires |m| < UINT32_BOUND
    ensures SplitFrames(a + BigEndian(|m|, 4) + m) == Some(SplitFrames(a).value + [m])
    decreases |a|
  {
    var frame := BigEndian(|m|, 4) + m;
    assert a + BigEndian(|m|, 4) + m == a + frame;
    if a == [] {
      SplitFramesSingle(m);
      assert a + frame == frame;
      assert SplitFrames(a) == Some([]);
      assert SplitFrames(a).value + [m] == [m];
    } else {
      var first, tail := SplitFramesHead(a);
      SplitFramesAppend(tail, m);
      assert tail + BigEndian(|m|, 4) + m == tail + frame;
      SplitFramesAppendBehind(first, tail, frame, SplitFrames(tail).value, m);
      assert a + frame == BigEndian(|first|, 4) + first + tail + frame;
    }
  }

  /** Splitting the elements recovers every message's bytes, in order. */
  lemma {:induction false} SplitFramesRoundTrip(parts: seq<seq<byte>>)
    requires AllFit(parts)
    ensures SplitFrames(Frame(parts)) == Some(parts)
  {
    if parts != [] {
      var init := parts[..|parts| - 1];
      SplitFramesRoundTrip(init);
      SplitFramesAppend(Frame(init), parts[|parts| - 1]);
      assert init + [parts[|parts| - 1]] == parts;
    }
  }

  /**
    encode_bundle: the marker, the time tag, then every packet as a
    size-prefixed element. It raises exactly when some packet does.
   */
  function BundleBytes(timeTag: int, msgs: seq<Json>, strOf: Json -> string): (r: Result<seq<byte>, Error>)
    ensures r.Ok? ==> |r.value| >= 16
  {
    match Collect(PacketResults(msgs, strOf))
    case Err(e) => Err(e)
    case Ok(parts) => Ok(BUNDLE_MARKER + TimeTag(timeTag) + Frame(parts))
  }

  /** encode_bundle raises exactly when some packet raises or is too long for its size prefix. */
  lemma BundleBytesSucceeds(timeTag: int, msgs: seq<Json>, strOf: Json -> string)
    ensures BundleBytes(timeTag, msgs, strOf).Ok? <==>
            forall i :: 0 <= i < |msgs| ==>
              PacketMessage(msgs[i], strOf).Ok? && |PacketMessage(msgs[i], strOf).value| < UINT32_BOUND
  {
    var rs := PacketResults(msgs, strOf);
    CollectOk(rs);
    PacketResultsAll(msgs, strOf);
  }

  /**
    Every bundle starts with "#bundle\0" and the time tag 1, whatever time
    tag was passed; its remaining bytes split into the packets' messages in
    input order, and it is 16 + sum(4 + len_i) bytes long.
   */
  lemma BundleLayout(timeTag: int, msgs: seq<Json>, strOf: Json -> string)
    requires BundleBytes(timeTag, msgs, strOf).Ok?
    ensures
      var b := BundleBytes(timeTag, msgs, strOf).value;
      && |b| >= 16
      && b[..8] == [0x23, 0x62, 0x75, 0x6E, 0x64, 0x6C, 0x65, 0x00]
      && b[8..16] == [0, 0, 0, 0, 0, 0, 0, 1]
      && SplitFrames(b[16..]).Some?
      && |SplitFrames(b[16..]).value| == |msgs|
      && (forall i :: 0 <= i < |msgs| ==> PacketMessage(msgs[i], strOf) == Ok(SplitFrames(b[16..]).value[i]))
      && |b| == 16 + FramedSize(SplitFrames(b[16..]).value)
  {
    var rs := PacketResults(msgs, strOf);
    var parts := Collect(rs).value;
    var b := BundleBytes(timeTag, msgs, strOf).value;
    assert b == BUNDLE_MARKER + TimeTag(timeTag) + Frame(parts);
    HeaderSplit(BUNDLE_MARKER, TimeTag(timeTag), Frame(parts));
    SplitFramesRoundTrip(parts);
    FrameLength(parts);
    assert forall i :: 0 <= i < |msgs| ==> PacketMessage(msgs[i], strOf) == Ok(parts[i]) by {
      CollectOk(rs);
      PacketResultsAll(msgs, strOf);
    }
  }

  lemma HeaderSplit(marker: seq<byte>, tag: seq<byte>, elements: seq<byte>)
    requires |marker| == 8 && |tag| == 8
    ensures var b := marker + tag + elements;
      b[..8] == marker && b[8..16] == tag && b[16..] == elements && |b| == 16 + |elements|
  {
  }

  /** One packet of encode_bundle's loop: look up "address" and "args", then encode the message. */
  method EncodePacket(msg: Json, strOf: Json -> string) returns (r: Result<seq<byte>, Error>)
    ensures r == PacketMessage(msg, strOf)
  {
    var address := Subscript(msg, "address");
    if address.Err? {
      return Err(address.error);
    }
    var args := Subscript(msg, "args");
    if args.Err? {
      return Err(args.error);
    }
    r := EncodeMessage(address.value, args.value, strOf);
  }

  /** A packet that encodes and fits extends the collected messages and the elements by one. */
  lemma CollectAppend(rs: seq<Result<seq<byte>, Error>>, i: nat, parts: seq<seq<byte>>, m: seq<byte>, header: seq<byte>)
    requires i < |rs| && Collect(rs[..i]) == Ok(parts)
    requires rs[i] == Ok(m) && |m| < UINT32_BOUND
    ensures Collect(rs[..i + 1]) == Ok(parts + [m])
    ensures AllFit(parts + [m])
    ensures header + Frame(parts + [m]) == header + Frame(parts) + BigEndian(|m|, 4) + m
  {
    CollectStep(rs, i);
    FrameAppend(parts, m);
  }

  /** A packet that raises, or is too long, decides the outcome of the whole bundle. */
  lemma CollectFails(rs: seq<Result<seq<byte>, Error>>, i: nat, e: Error)
    requires i < |rs| && Collect(rs[..i]).Ok?
    requires rs[i] == Err(e) || (rs[i].Ok? && |rs[i].value| >= UINT32_BOUND && e == SizeOutOfRange(|rs[i].value|))
    ensures Collect(rs) == Err(e)
  {
    CollectStep(rs, i);
    CollectStopsAtError(rs, i + 1);
  }

  /** encode_bundle, as the loop the source runs: the byte string grows by one element per packet. */
  method EncodeBundle(timeTag: int, messages: seq<Json>, strOf: Json -> string) returns (r: Result<seq<byte>, Error>)
    ensures r == BundleBytes(timeTag, messages, strOf)
  {
    var bundle := BUNDLE_MARKER;
    if timeTag <= 0 {
      bundle := bundle + BigEndian(0, 4) + BigEndian(1, 4);
    } else {
      bundle := bundle + BigEndian(0, 4) + BigEndian(1, 4);
    }
    ghost var header := bundle;
    assert header == BUNDLE_MARKER + TimeTag(timeTag);
    ghost var parts: seq<seq<byte>> := [];
    ghost var rs := PacketResults(messages, strOf);
    var i := 0;
    while i < |messages|
      invariant 0 <= i <= |messages|
      invariant Collect(rs[..i]) == Ok(parts)
      invariant bundle == header + Frame(parts)
    {
      var encoded := EncodePacket(messages[i], strOf);
      PacketResultsAt(messages, i, strOf);
      if encoded.Err? {
        CollectFails(rs, i, encoded.error);
        return Err(encoded.error);
      }
      var size := |encoded.value|;
      if size >= UINT32_BOUND {
        CollectFails(rs, i, SizeOutOfRange(size));
        return Err(SizeOutOfRange(size));
      }
      CollectAppend(rs, i, parts, encoded.value, header);
      bundle := bundle + BigEndian(size, 4) + encoded.value;
      parts := parts + [encoded.value];
      i := i + 1;
    }
    assert rs[..i] == rs;
    r := Ok(bundle);
  }
}
