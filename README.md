# WebTUIO bridge: OSC encoder and framing policy

The WebTUIO bridge server receives touch-cursor events from a browser. They
arrive as JSON text over a WebSocket. The server turns them into binary Open
Sound Control (OSC 1.0) packets and sends them to a TUIO client by UDP. This
project models the part of `server.py` that decides what goes on the wire:

- `Bytes` holds bytes, big-endian unsigned integers as `struct.pack('>I')`
  writes them, and the UTF-8 encoding `str.encode('utf-8')` performs.
- `Json` holds the decoded JSON value as `json.loads` hands it over: a dict
  keeps its items in insertion order, and ints and floats stay distinct.
  `JObj` itself admits a repeated key, on which `Get` would return the first
  value where `json.loads` keeps the last; a decoded dict has distinct keys
  (`UniqueKeys`), and on those `Get` is exact (`GetUnique`).
- `OscEncoder` models the class `OSCEncoder`: `pad_string`,
  `encode_string`, `encode_int32`, `encode_float32`, `encode_message` and
  `encode_bundle`.
  - Every exception these raise is an `Error` value.
  - The two loop-built encoders are methods (`EncodeMessage`,
    `EncodeBundle`). The argument loop of `encode_message` is the method
    `EncodeArgs`, which `EncodeMessage` calls. Each loop is proved equal to
    a specification function: the recursive `ArgBytes`, and `BundleBytes`,
    which is built from the recursive `PacketResults`, `Collect` and `Frame`.
    The layout properties are proved about those functions and `MessageBytes`.
  - An OSC 1.0 string reader (`ReadOscString`) and a bundle element splitter
    (`SplitFrames`) are the partners. They show which parts of the output a
    receiver can read back.
- `Bridge` models `WebTUIOBridge.parse_json_message`, which picks the
  packets out of a decoded JSON value. It also models
  `WebTUIOBridge.process_messages`, which sends nothing, a bare message, or a
  bundle.

The encoder keeps two behaviours that depart from OSC 1.0. Both are modelled
as the code writes them.

- **OSC-strings without a terminator.** `pad_string` adds no NUL when the
  UTF-8 length is already a multiple of 4. OSC 1.0 requires at least one NUL.
  So "fseq", "WebTUIO@test" and the type tag string ",sifffff" of a TUIO
  "set" message go out unterminated. `PadStringReadBack`, `MessageReadBack`
  and `TypeTagsReadBack` state exactly when an OSC 1.0 reader recovers a
  string.
- **The time tag is ignored.** `encode_bundle` writes the time tag 1
  ("immediately") in both branches, whatever `time_tag` it is given. So the
  clock reading in `process_messages` never reaches the wire.

A float is represented by the binary32 bit pattern that `struct.pack('>f')`
produces for it (`Float.Single`). A finite double beyond the binary32 range
is `Float.Overflow`, for which `struct.pack('>f')` raises OverflowError.

## Model

| member | source | states |
|---|---|---|
| Bytes.BigEndian | server.py:139 | `struct.pack('>I', n)` and `struct.pack('>II', 0, 1)` write exactly `width` bytes |
| Bytes.BigEndianRoundTrip | server.py:139 | the number a size prefix denotes is the size written, for every size below 2^32 |
| Bytes.FromBigEndianRoundTrip | server.py:139 | every 4-byte string is the big-endian form of the number it denotes |
| Bytes.Utf8Char | server.py:43 | one character takes 1 to 4 bytes; ASCII is its own code; every byte of a non-ASCII character is at least 0x80 |
| Bytes.Utf8 | server.py:43 | `s.encode('utf-8')` is between len(s) and 4·len(s) bytes; an ASCII string encodes to its code points; a zero byte appears exactly when s holds a NUL |
| Json.Get | server.py:182-195 | `key in d` holds exactly when some item has that key, and `d.get(key)` is the value stored under it |
| Json.GetUnique | server.py:179-195 | on a decoded dict, whose keys are distinct, `d[key]` is the value stored beside that key |
| Json.GetOr | server.py:189-195 | `d.get(key, default)`: the value stored under key when the dict holds it, the default otherwise |
| OscEncoder.PaddingLength | server.py:44 | the padding is 0 to 3 bytes and brings the length to a multiple of 4 |
| Bytes.Zeros | server.py:45 | `b'\x00' * padding`: exactly n bytes, all of them zero |
| OscEncoder.PadString | server.py:41-50 | encode_string is pad_string: the UTF-8 bytes followed by NULs only, up to the least multiple of 4 at or above their length; no NUL is appended exactly when that length is already a multiple of 4 |
| OscEncoder.PadStringReadBack | server.py:41-45 | an OSC 1.0 reader recovers the padded string, whatever follows, exactly when its UTF-8 length is not a multiple of 4 and it has no NUL |
| OscEncoder.FseqUnterminated | server.py:41-45 | "fseq" is sent as its four letters with no NUL |
| OscEncoder.DecodeInt32 | server.py:53-55 | reading four bytes as two's complement gives a value in [-2^31, 2^31) |
| OscEncoder.EncodeInt32 | server.py:53-55 | succeeds exactly for -2^31 ≤ v < 2^31, with 4 bytes that read back as v; otherwise the error names v |
| OscEncoder.DecodeThenEncodeInt32 | server.py:53-55 | every 4-byte string is the encoding of the int32 it reads as (the inverse direction) |
| OscEncoder.Int32SignBit | server.py:53-55 | the top bit of the first byte is set exactly for negative values (big-endian two's complement) |
| OscEncoder.EncodeFloat32 | server.py:58-60 | succeeds exactly for a binary32 value, with 4 big-endian bytes holding its bit pattern; overflow is an error |
| OscEncoder.Iterate | server.py:72 | `for arg in args` visits a list's items; it fails exactly on a number, a bool or None |
| OscEncoder.Tag | server.py:73-102 | the tag of one argument: str→'s', int or bool→'i', float→'f', anything else→'s' |
| OscEncoder.StrOf | server.py:99-102 | `str(arg)` for an 's' argument: a str is itself, None is "None", a list or a dict is the text `strOf` gives |
| OscEncoder.IntOf | server.py:53-55 | `int(value)` for an 'i' argument: an int is itself, a bool is 1 for true and 0 for false |
| OscEncoder.EncodeArg | server.py:72-107 | every argument encoding is a multiple of 4 bytes long |
| OscEncoder.EncodeArgMatchesTag | server.py:73-102 | an 's' argument is str(arg) as an OSC-string and never fails; an 'i' argument (int or bool) is 4 bytes that read back as int(arg) and fails exactly outside int32; an 'f' argument is its binary32 pattern and fails exactly on overflow |
| OscEncoder.TypeTags | server.py:69-107 | ',' followed by exactly one tag per argument, in argument order |
| OscEncoder.TypeTagsAscii | server.py:69-110 | the type tag string is ASCII, has no NUL and is len(args)+1 bytes long |
| OscEncoder.ArgBytes | server.py:70-107 | the concatenated argument bytes are a multiple of 4 bytes long |
| OscEncoder.ArgBytesSucceeds | server.py:70-107 | the arguments encode exactly when every argument encodes, and a failure is some argument's own error |
| OscEncoder.ArgBytesStopsAtError | server.py:72-107 | the first argument that fails decides the error of the whole message |
| OscEncoder.MessageBytes | server.py:63-112 | a non-str address raises before anything else; a message is a non-empty multiple of 4 bytes |
| OscEncoder.MessageBytesSucceeds | server.py:63-112 | encode_message succeeds exactly when the address is a str, args can be iterated and every argument encodes |
| OscEncoder.MessageLayout | server.py:66-112 | a message is the padded address, then the padded type tags, then the argument bytes, and nothing else |
| OscEncoder.MessageReadBack | server.py:66-112 | an OSC 1.0 reader recovers the address exactly when it is NUL-free with a length that is not a multiple of 4; it recovers the type tags exactly when len(args) is not 3 modulo 4 |
| OscEncoder.TypeTagsReadBack | server.py:110 | the padded type tag string reads back exactly when len(args) is not 3 modulo 4 |
| OscEncoder.SetTypeTagsUnterminated | server.py:69-110 | a TUIO "set" message with seven arguments has the tags ",sifffff", sent without a NUL |
| OscEncoder.EncodeMessage | server.py:63-112 | encode_message returns exactly MessageBytes, including every error |
| OscEncoder.EncodeArgs | server.py:69-107 | the loop that grows `type_tags` and `arg_bytes` computes exactly ArgBytes, and the tags are TypeTags whenever every argument encodes |
| OscEncoder.ArgStep | server.py:72-107 | one loop iteration appends the argument's tag, and its bytes unless it fails |
| OscEncoder.TimeTag | server.py:121-133 | the time tag is 00 00 00 00 00 00 00 01 whatever time_tag is, ≤ 0 or > 0 |
| OscEncoder.Subscript | server.py:137 | `msg[key]` succeeds exactly on a dict holding key, with the stored value |
| OscEncoder.PacketMessage | server.py:137 | one element's message: TypeError for a non-dict, KeyError('address') then KeyError('args') for a missing key, otherwise encode_message of the two values |
| OscEncoder.Collect | server.py:136-140 | the collected messages, one per packet, all fit a 4-byte size prefix |
| OscEncoder.CollectOk | server.py:136-140 | collection succeeds exactly when every packet encodes to fewer than 2^32 bytes, and then holds those messages in order |
| OscEncoder.CollectStopsAtError | server.py:136-140 | the first packet that fails decides the error of the whole bundle |
| OscEncoder.CollectStep | server.py:136-140 | one more packet appends its message, or fails with its error or a size error |
| OscEncoder.Frame | server.py:136-140 | the bundle elements: each message, in order, preceded by its length as a 4-byte big-endian uint32 |
| OscEncoder.FrameAppend | server.py:139-140 | appending a message appends its 4-byte size and then its bytes |
| OscEncoder.FrameLength | server.py:136-140 | the elements are Σ(4 + len_i) bytes long |
| OscEncoder.SplitFramesFirst | server.py:139-140 | a receiver takes one size-prefixed message off the front |
| OscEncoder.SplitFramesAppend | server.py:139-140 | splitting sees an appended element as one more message at the end |
| OscEncoder.SplitFramesRoundTrip | server.py:136-140 | splitting the elements on their size prefixes recovers every message, in order |
| OscEncoder.BundleBytes | server.py:115-142 | a bundle is at least 16 bytes long |
| OscEncoder.BundleBytesSucceeds | server.py:115-142 | encode_bundle succeeds exactly when every packet's encode_message succeeds with fewer than 2^32 bytes |
| OscEncoder.BundleLayout | server.py:115-142 | "#bundle\0", the time tag 1, then elements that split back into each packet's message in input order; total length 16 + Σ(4 + len_i) |
| OscEncoder.EncodePacket | server.py:137 | `encode_message(msg['address'], msg['args'])`: KeyError or TypeError first, then the message |
| OscEncoder.CollectAppend | server.py:139-140 | one encoded packet extends both the collected messages and the bundle bytes by one element |
| OscEncoder.CollectFails | server.py:136-140 | a packet that raises or is too long makes the whole bundle fail with that error |
| OscEncoder.EncodeBundle | server.py:115-142 | the loop that grows `bundle_bytes` computes exactly BundleBytes, including every error |
| Bridge.IsBundleFlag | server.py:187 | `'bundle' in data and data.get('bundle') is True`: the key is present and holds the JSON literal true |
| Bridge.ParseJsonMessage | server.py:176-209 | a result exactly for a recognised shape (the result may be `JNull`, which the caller cannot tell from no result); a message object gives [data] even when it has "packets"; an array is returned as it is; a result that is not a list is an unflagged object's own "packets" value |
| Bridge.BundleYieldsList | server.py:187-190 | an object with `bundle` exactly true yields a list: [] without "packets", the list itself, or a lone packet wrapped |
| Bridge.GetWithout | server.py:191-195 | deleting a key removes exactly that key and leaves every other lookup alone |
| Bridge.ParseObject | server.py:186-195 | an object without "address" is parsed from its "bundle" and "packets" entries alone |
| Bridge.ParseIgnoresTimeTag | server.py:191-195 | deleting "timeTag" from an object leaves the parse unchanged |
| Bridge.Truthy | server.py:213 | the truth value `not messages` tests: None, false, 0, a float whose binary32 image is ±0.0, "", [] and {} are false; everything else is true |
| Bridge.Length | server.py:217 | len(messages) succeeds exactly on a str, a list or a dict |
| Bridge.First | server.py:218 | messages[0] is a list's first item; on a dict it raises KeyError(0) |
| Bridge.SingleMessage | server.py:218-219 | a lone packet that is not a dict raises; otherwise its message is a non-empty multiple of 4 bytes |
| Bridge.SingleMessageNoAddress | server.py:219 | a lone dict without "address" is encoded with the address '', so its message has no address bytes and starts with its padded type tags |
| Bridge.SingleMessageNoArgs | server.py:219 | a lone dict without "args" is encoded with no arguments: the padded address, then ",\0\0\0" |
| OscEncoder.EmptyAddressMessage | server.py:66-112 | a message with the empty address is its padded type tags followed by its argument bytes |
| OscEncoder.NoArgsMessage | server.py:66-112 | a message with no arguments is its padded address followed by ",\0\0\0" |
| Bridge.ProcessMessages | server.py:211-224 | empty output exactly for a false value; one message gives its bare message with defaults; two or more give the bundle with time tag 0, so the clock is irrelevant; a true non-list value raises |
| Bridge.LoneMessageIsBare | test_client.py:24-27 | test 1's lone message object is sent as its bare OSC message |
| Bridge.FlaggedBundle | test_client.py:35-55 | test 2's object flagged as a bundle with several packets is sent as the bundle of those packets |
| Bridge.TimeTaggedSinglePacket | test_client.py:64-72 | test 3's object with a time tag and one packet is sent as that packet's bare message, not as a bundle |
| Bridge.DefaultsOnlyWhenAlone | server.py:217-224 | a message without "args" is sent alone with no arguments, but in a bundle it raises KeyError('args') |

## Left out

- WebSocket serving (`handle_client`, `start`, `main`) is not modelled. It is asyncio network I/O and argument parsing.
- The debug loop of `handle_client` (server.py:242-259) is not modelled, and it is not only logging: it evaluates its tests and f-strings whatever the log level, and some packets make it raise. `for msg in messages` raises on a true `packets` value that is a number or `true`, and `.get` raises on each packet that is not a dict, which includes the characters of a str and the keys of a dict iterated in its place. The remaining checks run only when a packet's "address" is exactly "/tuio/2Dcur" (the `and` at server.py:244 short-circuits): then `len` raises on a numeric, bool or null "args", `args[0]` raises KeyError on a dict "args" of three or more keys, and `{x:.3f}` raises on a "set" packet of seven or more arguments whose `args[2..6]` are not numbers. The `except` at server.py:280 then closes the connection, and `process_messages` never sees the datagram. The model does not capture this filter: `ProcessMessages` encodes packets that the server as a whole drops, for example `{"address":"/tuio/2Dcur","args":["set",1,"0.5",0.5,0,0,0]}`; a packet with any other address, such as `{"address":"/x","args":{"a":1,"b":2,"c":3}}`, passes the loop and is sent.
- UDP transport (`setup_udp`, `send_udp`, `cleanup`) and the `udp_socket` and `connected_clients` fields are not modelled. They are socket I/O.
- `json.loads` is not modelled. `ParseJsonMessage` takes its outcome, with `None` standing for a text that is not JSON. A `JObj` is taken to be a decoded dict, with distinct keys (`UniqueKeys`); the datatype does not enforce this, and on a repeated key `Get` would return the first value where `json.loads` keeps the last.
- `ParseJsonMessage` returns `Some(JNull)` for `{"packets": null}`, where the source returns Python `None`, the same value as for an unrecognised shape. Its `Some`/`None` distinction is therefore finer than what `if messages:` (server.py:241) can see. Both end in nothing being sent: `ProcessMessages` of `JNull` is empty.
- Logging is not modelled. The `except Exception` at server.py:207-209 never fires on a decoded value, so it has no model.
- Rounding a Python float (a double) to single precision is not modelled. A float is its binary32 bit pattern, or the overflow case.
- `Bridge.Truthy` judges a float by its binary32 image. A nonzero double too small for binary32 is therefore taken as false, where Python takes it as true.
- `str()` of a list or a dict (Python's repr of containers) is not modelled. It is the parameter `strOf`. The str() of None, "None", is modelled.
- Strings that hold lone surrogates are not modelled. `encode('utf-8')` raises on them, and a Dafny `string` cannot hold one.
- `datetime.now()` is not modelled. `ProcessMessages` takes the clock reading as the parameter `nowMillis`, and the output of `EncodeBundle` does not depend on it, although it still branches on whether it is positive.
- The numeric-string branch of encode_message (server.py:90-98) and its `except` fallback (server.py:103-107) are not modelled as separate paths. They cannot be reached: str, int, bool and float are all handled before them, so every other value takes the str() branch at server.py:100-102.
