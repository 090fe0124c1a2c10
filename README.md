# winasd core in Dafny

A model of the core of `winasd`, the daemon of a Bluetooth-provisioned home device. At its
heart is `woodstock`, a hand-written D-Bus client and object runtime that implements the
freedesktop D-Bus Specification on bytes: the sections "Type System", "Marshaling (Wire
Format)", "Message Format" and "Header Fields", and the standard interfaces
`org.freedesktop.DBus.Properties` and `org.freedesktop.DBus.ObjectManager`. On top of it sit
the BlueZ GATT objects the daemon exports, a NetworkManager client, and a few small services.

The model, one module per file:

- `Signature` (signature.dfy): the signature algebra of `explode.js`. Recursive functions
  specify `slice` and `explode`; methods follow the source's cursor loops and are proved
  equal to them.
- `DBusTypes` (dbus_types.dfy): typed values as a datatype; construction from a signature
  and from plain values; `push`, `eval`, the integer bounds; the wire encoding and decoding
  as functions on bytes. The round trip of decoding an encoded value is proved.
- `Marshalling` (marshalling.dfy): `marshal` as methods that write into a buffer in place.
  ARRAY back-patches its length word. Each method is proved to leave exactly the encoded bytes.
- `Framing` and `Driver` (framing.dfy, driver.dfy): type and flag codes, header fields,
  the bytes `wire` builds, and the connection. The connection covers the handshake test,
  the serial counter and table of pending calls, the `unwire` loop over received bytes, and
  `handleMessage`.
- `NodePath`, `ObjectTree`, `Interfaces`, `Bus` (paths.dfy, objects.dfy, interfaces.dfy,
  bus.dfy): the object tree as an arena of objects indexed by number, with routing, object
  paths, interfaces and attachment. The bus adds method-call dispatch, signal routing to
  listeners, `attach`, `listen` and `watch`.
- `Properties`, `ObjectManager` (properties.dfy, objectmanager.dfy): `getAll`, `GetAll`,
  the `PropertiesChanged` signal and `GetManagedObjects`.
- `GattCharacteristic`, `GattReadNotify`, `GattWriteRead`, `GattWriteIndicate`,
  `GattService`: the BlueZ `GattCharacteristic1` mixin, the three characteristic classes and
  `GattService1`.
- `NetworkManager`, `NetworkDevices` (nm_manager.dfy, nm_device.dfy): the signal-handler
  table, the connection settings body and reply shaping; the device list with its
  one-at-a-time job queue.
- `Bled`, `LocalAuth`, `Led`, `Upgrade`: the companion-chip serial frames, the local
  authentication state machine, the status LED controller and the upgrade selection rule.
- `Wrappers`, `JsStrings`, `Octets`: Option and Result, the JavaScript string operations the
  services use, and byte-level helpers.

Errors the source throws or passes to a callback are `Err` results carrying the source's
message. Callbacks are synchronous results, and what a listener or the socket would
receive is recorded in a sequence field.

## Model

| member | source | states |
|---|---|---|
| Octets.Round | src/woodstock/lib/dbus-types.js:60 | the padded offset lies in `[offset, offset + align)` |
| Octets.RoundIsCeil | src/woodstock/lib/dbus-types.js:60 | for each alignment 1, 2, 4, 8, `Round` equals `Math.ceil(offset / modulo) * modulo` |
| Octets.RoundIsLeastMultiple | src/woodstock/lib/dbus-types.js:60 | the padded offset is a multiple of the alignment, and no multiple lies between the offset and it |
| Octets.Pow256Values | src/woodstock/lib/dbus-types.js:27-39 | the value ranges of the 1-, 2-, 4- and 8-byte widths |
| Octets.UIntBytes | src/woodstock/lib/dbus-types.js:218-220 | an unsigned write produces exactly `w` bytes (also lines 240-246) |
| Octets.LERoundTrip | src/woodstock/lib/dbus-types.js:240-250 | a little-endian read returns the value written there |
| Octets.BERoundTrip | src/woodstock/lib/dbus-types.js:240-250 | a big-endian read returns the value written there |
| Octets.UIntRoundTrip | src/woodstock/lib/dbus-types.js:216-251 | reading back a written unsigned value gives the value, in both byte orders |
| Octets.ReadUIntLocal | src/woodstock/lib/dbus-types.js:248-250 | a read depends only on the bytes it covers |
| Octets.SignedRoundTrip | src/woodstock/lib/dbus-types.js:207-213 | a signed value in range survives the two's-complement write and signed read |
| Octets.Bytes | src/woodstock/lib/dbus-types.js:322 | `buf.write(s)` writes one byte per character |
| Octets.ReadChars | src/woodstock/lib/dbus-types.js:346 | `buf.slice(a, b).toString()` has one character per byte |
| Octets.CharsRoundTrip | src/woodstock/lib/dbus-types.js:322 | ASCII text written at an offset reads back as itself (also line 346) |
| Octets.HoldsAppend | src/woodstock/lib/dbus-types.js:315-330 | the bytes of `a + b` are at an offset exactly when `a` is there and `b` right after it |
| Signature.MatchParen | src/woodstock/lib/explode.js:22-32 | the index found is a `)` inside the scanned range |
| Signature.MatchParenDepth | src/woodstock/lib/explode.js:22-32 | the count plus the bracket depth from the scan's start stays positive before the index found and reaches zero just after it; with no index, it stays positive over the whole range |
| Signature.FirstBrace | src/woodstock/lib/explode.js:40-41 | the index found is a `}` inside the scanned range |
| Signature.FirstBraceIsFirst | src/woodstock/lib/explode.js:40-41 | no `}` lies before the one found, and none lies in the range when none is found |
| Signature.SliceEnd | src/woodstock/lib/explode.js:2-61 | a single complete type ends inside the signature and never with a dangling `a` |
| Signature.StructEnd | src/woodstock/lib/explode.js:21-34 | a struct slice is at least `()` long and ends with `)` |
| Signature.DictEntryEnd | src/woodstock/lib/explode.js:35-57 | a dict-entry slice is at least `{}` long and ends with `}` |
| Signature.DictEntryClosesAtFirstBrace | src/woodstock/lib/explode.js:40-52 | a dict entry closes at the first `}` after its `{`, whatever the nesting |
| Signature.ExplodeEnds | src/woodstock/lib/explode.js:72-77 | the cut points are strictly increasing, empty exactly when the range is empty, and the last one reaches the end without a dangling `a` |
| Signature.Pieces | src/woodstock/lib/explode.js:74-76 | one piece per cut point; the first piece starts at the cursor |
| Signature.PrefixedStep | src/woodstock/lib/explode.js:73-77 | one turn of the loop moves the sliced piece onto the list and the cursor past it |
| Signature.PrefixedDone | src/woodstock/lib/explode.js:73 | once the cursor reaches the end, the list collected is the result (also line 78) |
| Signature.PrefixedFail | src/woodstock/lib/explode.js:74 | a failing `slice` at the cursor fails the whole `explode` with its message |
| Signature.Slice | src/woodstock/lib/explode.js:2-61 | `slice` returns what the specification function `SliceSpec` says, error messages with their position and character included |
| Signature.AtPosition | src/woodstock/lib/explode.js:33 | an error message is its text, ` at position `, and decimal digits that read back as the position |
| Signature.SliceStruct | src/woodstock/lib/explode.js:21-34 | the depth-counting loop returns the struct up to the matching `)` after checking its interior, or `unmatched (` at its position |
| Signature.SliceDictEntry | src/woodstock/lib/explode.js:40-56 | the loop closes the entry at the first `}`, requires exactly two types inside with a basic key, or fails with the source's messages and the position |
| Signature.ExplodeFrom | src/woodstock/lib/explode.js:72-78 | the `while (start < end)` loop returns the specification's list of pieces or its first error |
| Signature.Explode | src/woodstock/lib/explode.js:66-79 | `explode(sig)` returns the specification's result, `[]` for the empty signature |
| Signature.PiecesConcat | src/woodstock/lib/explode.js:74-76 | consecutive pieces joined are the signature between the first cursor and the last cut |
| Signature.ExplodeConcat | src/woodstock/lib/explode.js:66-79 | joining the pieces of a successful `explode` gives the signature back; only `""` explodes to `[]` |
| Signature.SliceBraces | src/woodstock/lib/explode.js:35-38 | every `{` inside a sliced type directly follows an `a` |
| Signature.StructBraces | src/woodstock/lib/explode.js:21-34 | every `{` inside a sliced struct directly follows an `a` |
| Signature.DictEntryBraces | src/woodstock/lib/explode.js:35-57 | every `{` inside a sliced dict entry directly follows an `a` |
| Signature.ExplodeBraces | src/woodstock/lib/explode.js:72-77 | every `{` covered by the pieces directly follows an `a` |
| Signature.BraceOutsideArrayRejected | src/woodstock/lib/explode.js:36-38 | a `{` not directly after an `a` makes the signature invalid |
| Signature.TrailingArrayRejected | src/woodstock/lib/explode.js:19-20 | a signature ending in `a` is invalid: the array has no element type |
| Signature.BasicKeyTest | src/woodstock/lib/explode.js:48-50 | the key test `'ybnqiuxtdhsog'.includes(k)` accepts exactly the single codes other than `v` |
| Signature.InfixSingle | src/woodstock/lib/explode.js:48 | a one-character key is included in the code string exactly when the character is |
| Signature.SingleCodeExplodes | src/woodstock/lib/explode.js:4-18 | each single-character code is a complete type by itself |
| Signature.ExplodeFromEnds | src/woodstock/lib/explode.js:66-79 | a successful list of cut points gives `explode` the pieces cut there |
| Signature.ExplodeEndsCons | src/woodstock/lib/explode.js:73-77 | one turn of the loop adds the slice's end in front of the later cuts |
| Signature.SingleCodeCons | src/woodstock/lib/explode.js:4-18 | a single code is cut after one character |
| Signature.ExplodeExampleDict | src/woodstock/test/sigtool.js:8-11 | `explode('oa{sv}')` is `['o', 'a{sv}']` |
| Signature.ExplodeExampleHeader | src/woodstock/test/sigtool.js:13-16 | `explode('yyyyuua(yv)')` is `['y','y','y','y','u','u','a(yv)']` |
| Signature.ExplodeFieldEntry | src/woodstock/lib/explode.js:66-79 | `explode('yv')` is `['y', 'v']` |
| Signature.ExampleHeaderFields | src/woodstock/lib/explode.js:19-34 | `a(yv)` sliced at index 6 of the header type runs to its end |
| Signature.DictEntryQuirks | src/woodstock/lib/explode.js:40-50 | `a{sa{sv}}` is rejected because the inner `}` closes the outer entry, and a `v` key is rejected |
| Signature.SliceSpec | src/woodstock/lib/explode.js:2-61 | `slice` as a function: the piece up to `SliceEnd`; `Slice` is proved against it and `SliceEnd`, `StructEnd` and `DictEntryEnd` state its properties |
| Signature.ExplodeSpec | src/woodstock/lib/explode.js:66-79 | `explode(sig)` as a function; `Explode` is proved against it and `ExplodeConcat` and `ExplodeBraces` state its properties |
| DBusTypes.Align | src/woodstock/lib/dbus-types.js:105-118 | each type code's alignment is one of 1, 2, 4, 8 (0 for a character that is no type code) (also lines 187-301, 356-388, 488, 588, 647, 699) |
| DBusTypes.Size | src/woodstock/lib/dbus-types.js:187-301 | a fixed type's size equals its alignment |
| DBusTypes.CodeKinds | src/woodstock/lib/dbus-types.js:27-50 | a type code is exactly a fixed, a string-like or a container code |
| DBusTypes.Sigs | src/woodstock/lib/dbus-types.js:95-97 | one signature per value, in order (also lines 461-463) |
| DBusTypes.EvalAll | src/woodstock/lib/dbus-types.js:465-467 | one evaluated item per element |
| DBusTypes.NewText | src/woodstock/lib/dbus-types.js:303-313 | a string-like type accepts a string or nothing, and keeps the string as its value |
| DBusTypes.InteriorParts | src/woodstock/lib/dbus-types.js:591-592 | the interior of a bracketed signature explodes to at least one part, each shorter than the signature |
| DBusTypes.BySignature | src/woodstock/lib/dbus-types.js:490-497 | an empty container built from a signature has that signature; ARRAY's element signature is the rest; STRUCT has at least one field signature, each shorter; all start with no elements (also lines 590-595, 649-660, 722-726) |
| DBusTypes.NewAll | src/woodstock/lib/dbus-types.js:515-519 | `vals.map(v => new TYPE(esig, v))` makes one element per value |
| DBusTypes.UncalledSignatures | src/woodstock/lib/dbus-types.js:603 | `elems.map(e => e.signature)` gives one entry per element |
| DBusTypes.PushAllFills | src/woodstock/lib/dbus-types.js:597-600 | pushing values with the next field signatures fills a STRUCT's fields in order (also lines 637-644) |
| DBusTypes.VariantOf | src/woodstock/lib/dbus-types.js:729-733 | `new VARIANT(elem)` holds the element's signature then the element, and is well-formed when the element is |
| DBusTypes.Width | src/woodstock/lib/dbus-types.js:229-235 | the writer of a fixed type touches at most its size; INT32 uses the 16-bit writer and the 64-bit types none (also lines 272-289) |
| DBusTypes.FixedBytes | src/woodstock/lib/dbus-types.js:168-172 | a fixed value occupies exactly its size in bytes |
| DBusTypes.PatternFits | src/woodstock/lib/dbus-types.js:207-250 | a writable value's bit pattern fits the writer's width, and INT16's reads back as the signed value |
| DBusTypes.UnmarshalledFixed | src/woodstock/lib/dbus-types.js:174-184 | a fixed read advances the offset |
| DBusTypes.ReadText | src/woodstock/lib/dbus-types.js:332-353 | a string read starts inside the buffer, advances, and yields a text of the type's code |
| DBusTypes.UnmarshalledText | src/woodstock/lib/dbus-types.js:332-353 | as `ReadText`, and a SIGNATURE's text must explode (also lines 391-395) |
| DBusTypes.Unmarshalled | src/woodstock/lib/dbus-types.js:62-91 | `new TYPE(sig).unmarshal` advances the offset |
| DBusTypes.UnmarshalledArray | src/woodstock/lib/dbus-types.js:555-578 | ARRAY `unmarshal` returns an offset past its start |
| DBusTypes.UnmarshalledStruct | src/woodstock/lib/dbus-types.js:616-635 | STRUCT `unmarshal` returns an offset past its start |
| DBusTypes.UnmarshalledVariant | src/woodstock/lib/dbus-types.js:749-768 | VARIANT `unmarshal` returns an offset past its start |
| DBusTypes.UnmarshalledFields | src/woodstock/lib/dbus-types.js:624-629 | one field per field signature, read from the offset on |
| DBusTypes.IntEncoding | src/woodstock/lib/dbus-types.js:168-172 | the bytes of a fixed value are alignment padding, the bit pattern, and the bytes the writer leaves alone |
| DBusTypes.IntDecoding | src/woodstock/lib/dbus-types.js:174-184 | `unmarshal` of a fixed type reads the value back from its bit pattern |
| DBusTypes.IntRoundTrip | src/woodstock/lib/dbus-types.js:168-184 | a fixed value is read back from where it was written, ending where `marshal` ended |
| DBusTypes.TextEncoding | src/woodstock/lib/dbus-types.js:315-330 | the bytes of a string-like value are padding, its length, its characters and a NUL |
| DBusTypes.ReadTextAt | src/woodstock/lib/dbus-types.js:332-353 | the string read is the characters after the length word; the NUL is skipped |
| DBusTypes.TextDecoding | src/woodstock/lib/dbus-types.js:322 | the length word and the ASCII characters written are read back (also lines 341, 346) |
| DBusTypes.TextLayout | src/woodstock/lib/dbus-types.js:315-330 | where `marshal` puts the length word and the characters |
| DBusTypes.UnmarshalledTextOfRead | src/woodstock/lib/dbus-types.js:391-395 | SIGNATURE `unmarshal` passes its explode check on a valid signature |
| DBusTypes.TextRoundTrip | src/woodstock/lib/dbus-types.js:315-353 | an ASCII string-like value is read back from where it was written |
| DBusTypes.TextReadBack | src/woodstock/lib/dbus-types.js:332-353 | the length and characters of a written string are read back |
| DBusTypes.MarshalledAllCons | src/woodstock/lib/dbus-types.js:477-479 | the bytes of a list are the first element's, then the rest's from where it ended |
| DBusTypes.ArrayEncoding | src/woodstock/lib/dbus-types.js:526-553 | ARRAY bytes are padding, the back-patched length word counting the element bytes, padding to the element alignment, and the elements |
| DBusTypes.ArrayReadAt | src/woodstock/lib/dbus-types.js:555-578 | ARRAY `unmarshal` reads the length word and the elements up to `elemStart + num` |
| DBusTypes.ElemsStep | src/woodstock/lib/dbus-types.js:568-572 | one more turn of the element loop |
| DBusTypes.FieldsStep | src/woodstock/lib/dbus-types.js:625-629 | one more field of `esigs.forEach` |
| DBusTypes.StructEncoding | src/woodstock/lib/dbus-types.js:469-485 | STRUCT bytes are padding to 8, then the fields |
| DBusTypes.StructReadAt | src/woodstock/lib/dbus-types.js:616-635 | STRUCT `unmarshal` is the fields read from the 8-aligned offset |
| DBusTypes.VariantReadAt | src/woodstock/lib/dbus-types.js:749-768 | VARIANT `unmarshal` reads the SIGNATURE, then a value of that signature |
| DBusTypes.RoundTrip | src/woodstock/lib/dbus-types.js:168-184 | `unmarshal` of a value's signature reads back exactly what `marshal` wrote and ends where `marshal` ended (also lines 315-353, 526-578, 616-635, 749-768) |
| DBusTypes.RoundTripFixed | src/woodstock/lib/dbus-types.js:168-184 | the round trip for fixed values |
| DBusTypes.RoundTripText | src/woodstock/lib/dbus-types.js:315-353 | the round trip for string-like values |
| DBusTypes.ArrayLayout | src/woodstock/lib/dbus-types.js:526-553 | where the length word and elements sit, and that the word holds the element byte count |
| DBusTypes.RoundTripArray | src/woodstock/lib/dbus-types.js:526-578 | the round trip for ARRAY values |
| DBusTypes.ArrayReadBack | src/woodstock/lib/dbus-types.js:555-578 | the length word and elements of an ARRAY are read back |
| DBusTypes.StructLayout | src/woodstock/lib/dbus-types.js:469-485 | where the fields of a STRUCT sit |
| DBusTypes.RoundTripStruct | src/woodstock/lib/dbus-types.js:469-485 | the round trip for STRUCT and DICT_ENTRY values (also lines 616-635) |
| DBusTypes.StructDispatch | src/woodstock/lib/dbus-types.js:89-91 | the factory sends `(` and `{` signatures to STRUCT `unmarshal` |
| DBusTypes.StructReadBack | src/woodstock/lib/dbus-types.js:616-635 | the fields of a STRUCT are read back after the padding |
| DBusTypes.StructShape | src/woodstock/lib/dbus-types.js:590-595 | a well-formed STRUCT's signature constructs it and its field signatures are its fields' signatures (also lines 649-660) |
| DBusTypes.RoundTripVariant | src/woodstock/lib/dbus-types.js:469-485 | the round trip for VARIANT values (also lines 749-768) |
| DBusTypes.VariantReadBack | src/woodstock/lib/dbus-types.js:749-768 | the SIGNATURE and then the value of a VARIANT are read back |
| DBusTypes.RoundTripFields | src/woodstock/lib/dbus-types.js:625-629 | STRUCT fields are read back one after another |
| DBusTypes.FieldsHead | src/woodstock/lib/dbus-types.js:625-629 | the first field is read back and the rest follow it |
| DBusTypes.RoundTripElems | src/woodstock/lib/dbus-types.js:568-572 | ARRAY elements are read back until the length word is used up |
| DBusTypes.ElemsHead | src/woodstock/lib/dbus-types.js:568-572 | the first element is read back and the rest follow it |
| DBusTypes.RoundTripHead | src/woodstock/lib/dbus-types.js:477-479 | the first of a list of values is read back and the rest of the encoding follows it (also lines 568-572) |
| DBusTypes.NewFixed | src/woodstock/lib/dbus-types.js:128-166 | the FIXED_TYPE constructor after BYTE's and BOOLEAN's conversions; what it accepts and builds is stated by `NewFixedAccepts` (also lines 189-194, 255-260) |
| DBusTypes.NewFixedAccepts | src/woodstock/lib/dbus-types.js:128-166 | nothing, a number within the type's range (any number for DOUBLE, none for the 64-bit types), a bigint within the 64-bit range of its signedness, a one-character string for BYTE and a boolean for BOOLEAN are accepted, each with its error otherwise; the value built carries the type's code (also lines 189-194, 255-260) |
| DBusTypes.New | src/woodstock/lib/dbus-types.js:63-87 | the `new TYPE(sig, val)` factory: the type is chosen by the first character alone, `bad sig` otherwise; a container without values is built from the signature (`BySignature`), with a list by values (`ByValues`) |
| DBusTypes.ByValues | src/woodstock/lib/dbus-types.js:680-697 | `constructByValues` of each container: ARRAY maps `NewAll` over the values, STRUCT throws, DICT_ENTRY needs a bracketed signature, two parts and two values, VARIANT takes a signature and a value; `NewAll` states the ARRAY case (also lines 515-519, 608-610, 735-747) |
| DBusTypes.Push | src/woodstock/lib/dbus-types.js:637-644 | `push` checks the next field signature of a STRUCT or the element signature of an ARRAY; `PushAllFills` and `NetworkManager.ByteArrayPush` state the result (also lines 580-584) |
| DBusTypes.PushAll | src/woodstock/lib/dbus-types.js:600 | `elems.forEach(e => this.push(e))`, stopping at the first throw; `PushAllFills` states that matching fields are filled in order (also line 666) |
| DBusTypes.ArrayOf | src/woodstock/lib/dbus-types.js:499-513 | `new ARRAY(elems, sig)`: an empty list takes the signature, which must start with `a`; otherwise all elements must share one signature that matches the given one; `Properties.Invalidated` and `Properties.EntriesArray` state its results (also lines 490-497) |
| DBusTypes.StructOf | src/woodstock/lib/dbus-types.js:597-606 | `new STRUCT(elems, sig)`: with a non-empty signature the shell from the signature and the elements pushed; with none or `""` the elements as they are; `Framing.FieldEntry` states a result |
| DBusTypes.DictEntryOf | src/woodstock/lib/dbus-types.js:663-678 | `new DICT_ENTRY(elems, sig)`: with a non-empty signature the shell and the elements pushed; with none exactly two elements with a basic key; `Properties.PropEntry` states a result |
| DBusTypes.Eval | src/woodstock/lib/dbus-types.js:122-124 | `eval()`: a basic value's value, BOOLEAN as a boolean, a container's elements evaluated; `EvalAll` and `GattCharacteristic.ByteArrayRead` state its results (also lines 262-264, 465-467) |
| DBusTypes.Marshalled | src/woodstock/lib/dbus-types.js:469-485 | the bytes `marshal` writes, by type; the layouts are stated by `IntEncoding`, `TextEncoding`, `ArrayEncoding` and `StructEncoding`, and the round trip by `RoundTrip` (also lines 168-172, 315-330, 526-553) |
| Marshalling.Splice | src/woodstock/lib/dbus-types.js:170 | a write into a buffer keeps its length (also lines 322, 324) |
| Marshalling.SpliceAt | src/woodstock/lib/dbus-types.js:170 | a write changes the bytes in its range to the written ones and no other byte (also lines 322, 324) |
| Marshalling.Padded | src/woodstock/lib/dbus-types.js:169 | writing at the aligned offset over a zero-filled buffer is writing zero padding from the unaligned one (also lines 317, 471) |
| Marshalling.Adjacent | src/woodstock/lib/dbus-types.js:320-325 | two writes side by side are one write of both (also lines 477-479) |
| Marshalling.ZeroAfter | src/woodstock/lib/dbus-types.js:168-172 | a write leaves the bytes after it zero |
| Marshalling.WriteUInt | src/woodstock/lib/dbus-types.js:196-197 | `writeUInt8/16/32` with the byte order: the `w` bytes of the number at `p`, nothing else touched (also lines 218-219, 240-245) |
| Marshalling.WriteChars | src/woodstock/lib/dbus-types.js:322 | `buf.write(s, offset)`: the characters' bytes at the offset, nothing else touched (also line 324) |
| Marshalling.MarshalInt | src/woodstock/lib/dbus-types.js:168-172 | FIXED `marshal` returns `round(offset, align) + size` and writes the value's encoding there; a value error is reported; a write past the buffer end throws, except that the empty 64-bit writer succeeds at any offset and writes nothing |
| Marshalling.MarshalUnset | src/woodstock/lib/dbus-types.js:168-172 | `marshal` of a basic type with no value: numbers write zeros, string-like types throw (also lines 315-330) |
| Marshalling.ZeroSplice | src/woodstock/lib/dbus-types.js:168-172 | writing zeros over a zero-filled region changes nothing |
| Marshalling.UnsetLayout | src/woodstock/lib/dbus-types.js:168-172 | a zero-filled region already holds an unset value and its padding |
| Marshalling.IntShape | src/woodstock/lib/dbus-types.js:168-172 | the encoding of a writable fixed value is its padding, its bit pattern, then zeros up to its size (also lines 187-268) |
| Marshalling.TextLayout | src/woodstock/lib/dbus-types.js:315-330 | the length word, the characters and the NUL written one after another are one write with the padding before them |
| Marshalling.MarshalText | src/woodstock/lib/dbus-types.js:315-330 | STRING_LIKE `marshal` writes the length word, the characters and a NUL, and returns the offset after the NUL; a NUL that falls exactly at the buffer end is not written, and the offset after it is still returned |
| Marshalling.PrefixedTwice | src/woodstock/lib/dbus-types.js:477-479 | prefixing twice is prefixing once with both |
| Marshalling.ArrayLayout | src/woodstock/lib/dbus-types.js:526-553 | the length word written after the elements sits before them, over zeros |
| Marshalling.Marshal | src/woodstock/lib/dbus-types.js:168-172 | `marshal` writes the value's encoding at the offset and returns the offset after it, over a zero-filled buffer (also lines 315-330, 469-485, 526-553) |
| Marshalling.MarshalArray | src/woodstock/lib/dbus-types.js:526-553 | ARRAY `marshal`: the elements after the 4-aligned length word and the element alignment, then the word back-patched with their byte count |
| Marshalling.ArrayFails | src/woodstock/lib/dbus-types.js:526-553 | an ARRAY whose elements fail, or do not fit the length word or the buffer, has no encoding that fits |
| Marshalling.ArrayWrote | src/woodstock/lib/dbus-types.js:526-553 | the elements written, then the length word, are the ARRAY's encoding |
| Marshalling.MarshalStruct | src/woodstock/lib/dbus-types.js:469-485 | STRUCT and DICT_ENTRY `marshal`: the elements from the 8-aligned offset |
| Marshalling.AllStep | src/woodstock/lib/dbus-types.js:477-479 | one element further into the encoding of a list |
| Marshalling.BufferStep | src/woodstock/lib/dbus-types.js:477-479 | one element further into the buffer |
| Marshalling.AllFails | src/woodstock/lib/dbus-types.js:477-479 | an element that fails leaves the list without an encoding that fits |
| Marshalling.AllAdvance | src/woodstock/lib/dbus-types.js:477-479 | an element that succeeds extends the list's encoding by its bytes |
| Marshalling.AllDone | src/woodstock/lib/dbus-types.js:477-479 | with every element written, the list's encoding is what was accumulated |
| Marshalling.MarshalAll | src/woodstock/lib/dbus-types.js:477-479 | `elems.reduce((offset, el) => el.marshal(buf, offset, le), off)` writes the list's encoding and returns the offset after it |
| Marshalling.StartAll | src/woodstock/lib/dbus-types.js:477-479 | the reduce starts with nothing written |
| Framing.EncodeType | src/woodstock/lib/dbus-driver.js:145-157 | the four message types encode to 1..4; any other type throws |
| Framing.DecodeType | src/woodstock/lib/dbus-driver.js:159-174 | exactly the numbers 0..4 decode; anything else throws |
| Framing.TypeCodes | src/woodstock/lib/dbus-driver.js:145-174 | decode undoes encode and encode undoes decode on 1..4; code 0 decodes to INVALID, which cannot be encoded |
| Framing.EncodeFlags | src/woodstock/lib/dbus-driver.js:176-184 | the flags byte is below 8, and 0 without a flags object |
| Framing.DecodeFlags | src/woodstock/lib/dbus-driver.js:186-192 | a non-number decodes to no flags |
| Framing.FlagsRoundTrip | src/woodstock/lib/dbus-driver.js:176-192 | decoding encoded flags gives them back; encoding decoded flags gives the three low bits of the byte |
| Framing.WithField | src/woodstock/lib/dbus-driver.js:328-330 | `m[names[y]] = v` sets that field and leaves every other field and the type, flags, version, serial and body alone |
| Framing.EncodeField | src/woodstock/lib/dbus-driver.js:194-196 | a header field is a `(yv)` STRUCT of the code as a BYTE and a VARIANT |
| Framing.FieldEntry | src/woodstock/lib/dbus-driver.js:195 | `new STRUCT([key, variant], '(yv)')` pushes both elements into the `(yv)` shell |
| Framing.FieldsInOrder | src/woodstock/lib/dbus-driver.js:238-248 | the header fields come in strictly increasing code order, each `(yv)`, and field k is present exactly when it is truthy |
| Framing.FieldsSkip | src/woodstock/lib/dbus-driver.js:238-248 | a falsy field has no entry |
| Framing.FieldsCons | src/woodstock/lib/dbus-driver.js:238-248 | a truthy field's entry goes in front of the later ones |
| Framing.BodyWrap | src/woodstock/lib/dbus-driver.js:232 | `new STRUCT(m.body)` holds the body elements |
| Framing.BodySignature | src/woodstock/lib/dbus-driver.js:245 | the message's own signature wins when truthy; with neither signature nor body there is none |
| Framing.Header | src/woodstock/lib/dbus-driver.js:223-249 | the header is a `(yyyyuua(yv))` STRUCT of seven elements |
| Framing.HeaderShell | src/woodstock/lib/dbus-driver.js:223 | `new STRUCT('(yyyyuua(yv))')` is the empty header |
| Framing.ElemsFillShell | src/woodstock/lib/dbus-driver.js:227-249 | every header push matches its signature and fills the shell |
| Framing.HeaderPushes | src/woodstock/lib/dbus-driver.js:223-249 | the header built is exactly the pushes into the empty header |
| Framing.MarshalFresh | src/woodstock/lib/dbus-driver.js:219-221 | a 1 MiB buffer, the value marshalled little-endian at 0, the written bytes sliced and rounded up (also lines 250-254) |
| Framing.Wire | src/woodstock/lib/dbus-driver.js:218-256 | `wire` succeeds exactly when its specification does, with the same bytes |
| Framing.WireHeader | src/woodstock/lib/dbus-driver.js:236-255 | the header half of `wire` agrees with its specification |
| Framing.ByteBytes | src/woodstock/lib/dbus-driver.js:227-230 | a BYTE is its value at any offset |
| Framing.WordBytes | src/woodstock/lib/dbus-driver.js:236-237 | a UINT32 at a 4-aligned offset is its four little-endian bytes |
| Framing.AllCons | src/woodstock/lib/dbus-driver.js:250 | a list's encoding is its first element's followed by the rest's |
| Framing.AllFirst | src/woodstock/lib/dbus-driver.js:250 | as `AllCons`, for any non-empty list |
| Framing.AllSingle | src/woodstock/lib/dbus-driver.js:250 | a one-element list encodes as the element |
| Framing.FieldArrayBytes | src/woodstock/lib/dbus-driver.js:249-250 | the field ARRAY at offset 12: the length word, then the entries at 16 with no padding |
| Framing.WordsBytes | src/woodstock/lib/dbus-driver.js:236-237 | the body length and serial at 4 and 8, then the field ARRAY (also line 249) |
| Framing.HeaderElemsBytes | src/woodstock/lib/dbus-driver.js:227-250 | twelve bytes of fixed fields, then the field ARRAY |
| Framing.HeaderBytes | src/woodstock/lib/dbus-driver.js:227-250 | a marshalled header's first 16 bytes are 'l', type, flags, version 1, body length, serial, and the fields' byte length (also lines 299-301) |
| Framing.ReadWord | src/woodstock/lib/dbus-driver.js:299 | four little-endian bytes are read back as their value (also line 301) |
| Framing.HeaderShape | src/woodstock/lib/dbus-driver.js:227-249 | the header's elements, with serial and body length in range |
| Framing.FixedLayout | src/woodstock/lib/dbus-driver.js:227-237 | the fixed bytes and words form the first 16 bytes |
| Framing.FrameOf | src/woodstock/lib/dbus-driver.js:252-255 | a header with the fixed part, padded to 8, then the body, is one whole frame (also lines 299-303) |
| Framing.FixedWords | src/woodstock/lib/dbus-driver.js:291 | the bytes and words `unwire` reads from the fixed part (also lines 299-301, 320-323) |
| Framing.WordIn | src/woodstock/lib/dbus-driver.js:299-301 | a word of the fixed part read back |
| Framing.FramedBytes | src/woodstock/lib/dbus-driver.js:250-255 | the framed header fits the buffer and starts with the fixed part, padding, then the body |
| Framing.FramedParts | src/woodstock/lib/dbus-driver.js:236-255 | a framed message is the header's encoding, padding, then the body |
| Framing.FramedFrame | src/woodstock/lib/dbus-driver.js:250-255 | a framed header and body is one whole frame (also lines 299-303) |
| Framing.WiredFrame | src/woodstock/lib/dbus-driver.js:218-256 | `wire`'s output is one whole frame as `unwire` measures it, with the message's type code, flags, serial and marshalled body last (also lines 286-303) |
| Framing.Wired | src/woodstock/lib/dbus-driver.js:218-256 | `wire(m, serial)`: the header, padding to 8, the body; `Wire` and `WiredFrame` state it |
| Framing.Framed | src/woodstock/lib/dbus-driver.js:250-255 | the marshalled header padded to 8, then the body bytes; `WireHeader` and `WiredFrame` state it |
| Driver.TrimLine | src/woodstock/lib/dbus-driver.js:110 | a line ending in CR LF trims to the text before it |
| Driver.HandshakeAccepted | src/woodstock/lib/dbus-driver.js:108-116 | the bus's `OK <guid>` line is accepted for every 32-digit lower-case hex guid |
| Driver.HandshakeRejected | src/woodstock/lib/dbus-driver.js:111 | a guid one digit short, an upper-case digit, or a refusal fails the handshake (also lines 130-133) |
| JsStrings.DecimalText | src/woodstock/lib/dbus-driver.js:141 | `uid.toString()` is a non-empty string of decimal digits |
| JsStrings.DecimalRoundTrip | src/woodstock/lib/dbus-driver.js:141 | the decimal text reads back as the user id |
| Driver.Hex | src/woodstock/lib/dbus-driver.js:141 | `toString('hex')` gives two lower-case hex digits per character |
| Driver.HexRoundTrip | src/woodstock/lib/dbus-driver.js:141 | the hex text decodes back to the characters |
| Driver.AuthLineNamesUid | src/woodstock/lib/dbus-driver.js:140-142 | the auth line is NUL, `AUTH EXTERNAL `, hex that decodes to the user id's decimal digits, CR LF |
| Driver.HeaderDecoded | src/woodstock/lib/dbus-driver.js:310-311 | a header read with `(yyyyuua(yv))` is a STRUCT of seven elements |
| Driver.FieldsApplied | src/woodstock/lib/dbus-driver.js:325-331 | each header field is the value of the last entry with its code (1..9); fields without an entry keep theirs; nothing else changes |
| Driver.NextFrame | src/woodstock/lib/dbus-driver.js:288-307 | a frame handed on lies within the data and its header within the frame |
| Driver.LengthsLocal | src/woodstock/lib/dbus-driver.js:299-302 | the length words are read from the first 16 bytes only |
| Driver.WiredIsNextFrame | src/woodstock/lib/dbus-driver.js:218-256 | what `wire` writes, followed by anything, is measured as one frame of exactly its length (also lines 288-307) |
| Driver.WiredPrefixWaits | src/woodstock/lib/dbus-driver.js:288 | any proper prefix of a wired message is waited on (also line 303) |
| Driver.ReplyResolves | src/woodstock/lib/dbus-driver.js:359-375 | a reply to a pending call removes it and calls its callback once, with the body or an EDBUS error named by the reply |
| Driver.ReplyOnce | src/woodstock/lib/dbus-driver.js:360-362 | a second reply with the same serial changes nothing |
| Driver.UnknownReplyIgnored | src/woodstock/lib/dbus-driver.js:360-361 | a reply with no pending serial is ignored |
| Driver.SignalsHandled | src/woodstock/lib/dbus-driver.js:376-391 | the bus's NameAcquired signal renames the connection; every other signal is emitted unchanged |
| Driver.HandleGrows | src/woodstock/lib/dbus-driver.js:356-392 | handling adds at most one event and only removes pending calls |
| Driver.UnwiredRemainder | src/woodstock/lib/dbus-driver.js:286-354 | `unwire` leaves a suffix of its input, waiting for more bytes unless it threw; events are appended and pending calls only removed |
| Driver.UnwireTakesWiredFrame | src/woodstock/lib/dbus-driver.js:286-354 | a wired frame at the head of the data is the one parsed next, and what follows is kept |
| Driver.UnwiredStep | src/woodstock/lib/dbus-driver.js:303-352 | one turn of `unwire` over a whole frame |
| Driver.Connection.constructor | src/woodstock/lib/dbus-driver.js:70-88 | serial 1, no pending call, empty name and data |
| Driver.Connection.Send | src/woodstock/lib/dbus-driver.js:258-267 | `send` takes the next serial and writes the wired message, or writes nothing when `wire` throws |
| Driver.Connection.Invoke | src/woodstock/lib/dbus-driver.js:269-272 | `invoke` sends a METHOD_CALL and records the callback under a serial no pending call has |
| Driver.Connection.SendAs | src/woodstock/lib/dbus-driver.js:274-284 | `reply`, `error`, `signal` send with the type set |
| Driver.Connection.HandleMessage | src/woodstock/lib/dbus-driver.js:356-392 | the connection's new state is `Handle` of the old one |
| Driver.Connection.Unwire | src/woodstock/lib/dbus-driver.js:286-354 | the loop leaves the state `Unwired` gives for the old data |
| Driver.Connection.Receive | src/woodstock/lib/dbus-driver.js:134-137 | received bytes are appended and `unwire` runs over them |
| Driver.AcceptsHandshake | src/woodstock/lib/dbus-driver.js:110-111 | the trimmed reply must be `OK`, one white-space character and 32 lower-case hex digits; `HandshakeAccepted` and `HandshakeRejected` state it |
| Driver.AuthLine | src/woodstock/lib/dbus-driver.js:140-142 | the first line written; `AuthLineNamesUid` states what it holds |
| Driver.ParseMessage | src/woodstock/lib/dbus-driver.js:310-350 | the header and body `unwire` reads from one frame, with its five errors; `UnwireTakesWiredFrame` states that it reads back a wired message |
| Driver.ErrorMessage | src/woodstock/lib/dbus-driver.js:366-369 | the first body argument when it is a STRING, otherwise `dbus error`; `ReplyResolves` states it |
| Driver.Handle | src/woodstock/lib/dbus-driver.js:356-392 | `handleMessage`; `ReplyResolves` and `HandleGrows` state its effect |
| Driver.Unwired | src/woodstock/lib/dbus-driver.js:286-354 | `unwire`; `UnwiredRemainder`, `UnwiredStep` and `UnwireTakesWiredFrame` state its effect |
| NodePath.TrimSlashes | src/woodstock/lib/dbus.js:161 | the path without its trailing separators is a prefix and ends in a non-separator |
| NodePath.NonEmpty | src/woodstock/lib/dbus.js:43 | `filter(x => !!x)` keeps exactly the non-empty strings (also line 155) |
| NodePath.RootNames | src/woodstock/lib/dbus.js:43 | `/` has no names (also line 155) |
| NodePath.ResolvePlain | src/woodstock/lib/dbus.js:152 | plain names survive normalisation unchanged |
| NodePath.SplitJoined | src/woodstock/lib/dbus.js:155 | splitting names joined by `/` gives them back |
| NodePath.JoinedLast | src/woodstock/lib/dbus-object.js:43 | joined names end with the last name's last character |
| NodePath.NonEmptyPlain | src/woodstock/lib/dbus.js:155 | plain names pass the filter unchanged |
| NodePath.SplitSlashed | src/woodstock/lib/dbus.js:155 | splitting `/a/b` gives an empty first piece and the names |
| NodePath.NormalizeKept | src/woodstock/lib/dbus.js:152 | an absolute path whose kept segments are plain normalises to `/` and those names |
| NodePath.JoinPathPlain | src/woodstock/lib/dbus-object.js:43 | `path.join('/', ...names)` of plain names is `/` and the names joined by `/`, or `/` for none |
| NodePath.DoubleSlashed | src/woodstock/lib/dbus-object.js:43 | a doubled leading separator is normalised away |
| NodePath.SlashedPath | src/woodstock/lib/dbus.js:152-161 | `/` and plain names is a normalised absolute path whose names are the names and whose base name is the last |
| NodePath.SlashedNormal | src/woodstock/lib/dbus.js:152 | `/` and plain names is normalised |
| NodePath.SlashedBase | src/woodstock/lib/dbus.js:161 | its base name is the last name |
| NodePath.ResolveAbsolute | src/woodstock/lib/dbus.js:152 | an absolute path normalises to plain names only |
| NodePath.SplitTrailing | src/woodstock/lib/dbus.js:155 | a trailing separator adds one empty piece |
| NodePath.NonEmptyDropsLast | src/woodstock/lib/dbus.js:155 | the filter drops a trailing empty piece |
| NodePath.SlashedTrailing | src/woodstock/lib/dbus.js:155 | with a trailing separator, the names and base name are unchanged (also line 161) |
| NodePath.TrailingNames | src/woodstock/lib/dbus.js:155 | with a trailing separator, the names are unchanged |
| NodePath.TrailingBase | src/woodstock/lib/dbus.js:161 | with a trailing separator, the base name is the last name |
| NodePath.NormalAbsolute | src/woodstock/lib/dbus.js:152-161 | a path `attach` accepts other than `/` is `/` and plain names, perhaps with one trailing separator; its names are those names and its base name is the last |
| NodePath.Normalize | src/woodstock/lib/dbus.js:151 | `path.normalize`; `NormalizeKept`, `ResolveAbsolute` and `SlashedNormal` state its results |
| NodePath.IsAbsolute | src/woodstock/lib/dbus.js:152 | `path.isAbsolute`: a leading separator; `NormalAbsolute` states what `attach` accepts |
| NodePath.Basename | src/woodstock/lib/dbus.js:160 | `path.basename`; `SlashedBase` and `TrailingBase` state its results |
| NodePath.JoinPath | src/woodstock/lib/dbus-object.js:43 | `path.join('/', ...names)`; `JoinPathPlain` and `DoubleSlashed` state its results |
| ObjectTree.FindNamed | src/woodstock/lib/dbus-object.js:49 | `children.find(c => c.name === name)` finds the first child with the name, or none when no child has it |
| ObjectTree.Route | src/woodstock/lib/dbus-object.js:47-56 | `route(namepath)` without make: the empty path is the object itself; otherwise an object of the tree or none |
| ObjectTree.RouteAppend | src/woodstock/lib/dbus-object.js:47-56 | routing along `a + b` is routing along `a`, then along `b` |
| ObjectTree.RouteCons | src/woodstock/lib/dbus-object.js:48-55 | one step along the first name, then the rest |
| ObjectTree.RouteAfterAppend | src/woodstock/lib/dbus-object.js:89 | appending a child keeps every route that already leads somewhere |
| ObjectTree.FindNamedPrefix | src/woodstock/lib/dbus-object.js:49 | a first match stays first when more children follow |
| ObjectTree.FindNamedAt | src/woodstock/lib/dbus-object.js:49 | the first child with the name is the one found |
| ObjectTree.RouteGrow | src/woodstock/lib/dbus-object.js:47-56 | routes that lead somewhere survive objects being added (also lines 86-95) |
| ObjectTree.RouteAfterRename | src/woodstock/lib/dbus.js:161 | renaming an object that is nobody's child changes no route |
| ObjectTree.Range | src/woodstock/lib/dbus-object.js:28-31 | the objects `lo` to `hi - 1` in order |
| ObjectTree.IndexOf | src/woodstock/lib/dbus-object.js:68 | `findIndex` finds the first occurrence |
| ObjectTree.RemoveFirstSpec | src/woodstock/lib/dbus-object.js:67-71 | `removeInterface` drops exactly the first occurrence, or changes nothing when absent |
| ObjectTree.RemoveAdded | src/woodstock/lib/dbus-object.js:59-71 | removing an interface just added gives the list back |
| ObjectTree.ForestNew | src/woodstock/lib/dbus-object.js:13-26 | a new detached object keeps the parent links a forest |
| ObjectTree.Reroot | src/woodstock/lib/dbus-object.js:86-95 | the tree of the attached object joins the parent's tree |
| ObjectTree.Deepen | src/woodstock/lib/dbus-object.js:86-95 | the attached subtree moves further from its root |
| ObjectTree.Raise | src/woodstock/lib/dbus-object.js:86-95 | the ranks outside the attached subtree rise |
| ObjectTree.AttachRooted | src/woodstock/lib/dbus-object.js:86-95 | attaching keeps every object's root and depth consistent |
| ObjectTree.AttachRanked | src/woodstock/lib/dbus-object.js:86-95 | attaching keeps a rank that falls from parent to child |
| ObjectTree.AttachListed | src/woodstock/lib/dbus-object.js:88-89 | children lists stay the inverse of the parent links |
| ObjectTree.ForestAttach | src/woodstock/lib/dbus-object.js:86-95 | hanging a detached tree under an object outside it keeps a forest |
| ObjectTree.Tree.constructor | src/woodstock/lib/dbus.js:36-37 | the bus's root object, with no children and no interfaces |
| ObjectTree.Tree.Visit | src/woodstock/lib/dbus-object.js:28-31 | `visit` starts with the object and stays within the tree |
| ObjectTree.Tree.VisitFrom | src/woodstock/lib/dbus-object.js:30 | the children's visits stay within the tree |
| ObjectTree.Tree.VisitCovers | src/woodstock/lib/dbus-object.js:28-31 | `visit` reaches exactly the objects at or below its start |
| ObjectTree.Tree.PathNames | src/woodstock/lib/dbus-object.js:39-42 | the names from below the root down to the object, one per level |
| ObjectTree.Tree.ObjectPath | src/woodstock/lib/dbus-object.js:38-44 | `objectPath` walks up the parents and joins the names |
| ObjectTree.Tree.ChildFacts | src/woodstock/lib/dbus-object.js:88-89 | a child's parent is the object it is listed under and its names extend its parent's |
| ObjectTree.Tree.RouteNames | src/woodstock/lib/dbus-object.js:47-56 | a route ends below its start, at an object whose names extend the start's by the route |
| ObjectTree.Tree.RoutedPath | src/woodstock/lib/dbus-object.js:38-56 | the object a route from the root reaches has path `/` and the route's names |
| ObjectTree.Tree.IsMounted | src/woodstock/lib/dbus-object.js:16-21 | `dbus` is found exactly when the parent chain ends at the bus's root |
| ObjectTree.Tree.NewObject | src/woodstock/lib/dbus-object.js:13-26 | `new DBusObject(name)` is a detached object with no children and no interfaces |
| ObjectTree.Tree.Link | src/woodstock/lib/dbus-object.js:87-89 | `attach` records the parent and appends the object to its children |
| ObjectTree.Tree.Attach | src/woodstock/lib/dbus-object.js:86-95 | `attach` links the object and, when it is now on the bus, runs `mounted` on its subtree in visit order |
| ObjectTree.Tree.AddNamed | src/woodstock/lib/dbus-object.js:52-53 | a missing name gets a new object appended to the children |
| ObjectTree.Tree.ChildNamed | src/woodstock/lib/dbus-object.js:49-54 | one step of `route(namepath, true)`: the first child with the name, or a new one |
| ObjectTree.Tree.RouteMake | src/woodstock/lib/dbus-object.js:47-56 | `route(namepath, true)` ends in the tree; existing objects keep their names and parents and their children lists only grow |
| ObjectTree.Tree.CreateChild | src/woodstock/lib/dbus-object.js:80-84 | `createChild` attaches a new named object last among the children |
| ObjectTree.Tree.SetName | src/woodstock/lib/dbus.js:161 | `dobj.name = ...` renames one object and changes nothing else |
| ObjectTree.Tree.AddInterface | src/woodstock/lib/dbus-object.js:59-65 | `addInterface` records the object and appends the interface; an interface already added throws |
| ObjectTree.Tree.RemoveInterface | src/woodstock/lib/dbus-object.js:67-71 | `removeInterface` drops the first occurrence and nothing else |
| Interfaces.Signatures | src/woodstock/lib/dbus.js:86-87 | `filter` by direction then `map` to types: no more signatures than arguments, each one of an argument with that direction; the exact result is stated by `SignaturesAppend` and `SignatureOne` |
| Interfaces.SignaturesAppend | src/woodstock/lib/dbus.js:86-87 | the types picked from two argument lists one after the other are those of the first, then those of the second |
| Interfaces.SignatureOne | src/woodstock/lib/dbus.js:86-87 | one argument contributes its type exactly when it has the direction asked for, so with `SignaturesAppend` the result is exactly the types of that direction's arguments, in order |
| Interfaces.FindByName | src/woodstock/lib/dbus.js:59 | `ifaces.find(i => i.name === name)` finds the first interface with the name, or none when no interface has it |
| Properties.PropEntry | src/woodstock/lib/dbus-properties.js:47 | `new DICT_ENTRY([new STRING(prop), new VARIANT(v)])` is a `{sv}` entry of the name and a variant of the value |
| Properties.Present | src/woodstock/lib/dbus-properties.js:45-46 | the declared properties the interface defines (`prop in iface`), all of them, in declaration order |
| Properties.EntriesOfPresent | src/woodstock/lib/dbus-properties.js:42-51 | `getAll` fails exactly when a present property's value does not fit its signature; otherwise one entry per present property, in order |
| Properties.FitMore | src/woodstock/lib/dbus-properties.js:45-49 | one more fitting property adds its entry at the end |
| Properties.AllPropsShape | src/woodstock/lib/dbus-properties.js:42-51 | `getAll` returns an `a{sv}` array of exactly the present properties' entries |
| Properties.EntriesStuck | src/woodstock/lib/dbus-properties.js:45-49 | once a property throws, the whole `getAll` throws with its error |
| Properties.EntriesStep | src/woodstock/lib/dbus-properties.js:45-49 | an absent property is skipped, a misfit throws, a fitting one adds an entry |
| Properties.GetAllOf | src/woodstock/lib/dbus-properties.js:42-51 | the `forEach` loop returns `getAll`'s array or its error |
| Properties.GetAllNamed | src/woodstock/lib/dbus-properties.js:56-70 | `GetAll(name)` gives the first interface with the name's properties, or `biang biang` when there is none |
| Properties.FirstDecl | src/woodstock/lib/dbus-properties.js:75 | `props.find(ns => ns[0] === p)` finds a declaration with the name, or none when none has it |
| Properties.Declared | src/woodstock/lib/dbus-properties.js:75 | the declarations of the changed names, in the order named, undeclared names left out |
| Properties.ChangedEntries | src/woodstock/lib/dbus-properties.js:89-92 | one `{sv}` entry per declared changed property, holding its current value |
| Properties.InvalidatedRefused | src/woodstock/lib/dbus-properties.js:93 | `new ARRAY(iprops, 'as')` throws for every non-empty list of invalidated names |
| Properties.Strings | src/woodstock/lib/dbus-properties.js:93 | each invalidated name as a STRING |
| Properties.Invalidated | src/woodstock/lib/dbus-properties.js:93 | the invalidated names as an `as` array that evaluates back to the names |
| Properties.EvalStrings | src/woodstock/lib/dbus-properties.js:93 | STRINGs evaluate to their texts |
| Properties.EntriesArray | src/woodstock/lib/dbus-properties.js:89-92 | `{sv}` entries make an `a{sv}` array |
| Properties.ChangedBody | src/woodstock/lib/dbus-properties.js:73-94 | nothing is sent without a declared changed property; any invalidated name makes it throw once the entries are built; otherwise the body is the interface name, the changed entries and the empty invalidated list, signature `sa{sv}as` |
| Properties.AllProps | src/woodstock/lib/dbus-properties.js:42-51 | `getAll(iface)`; `AllPropsShape` and `EntriesOfPresent` state its result |
| Properties.InvalidatedAsWritten | src/woodstock/lib/dbus-properties.js:93 | `new ARRAY(iprops, 'as')` as written; `InvalidatedRefused` states that it throws for any name |
| Bus.Dispatched | src/woodstock/lib/dbus.js:42-93 | `handleMethodCall`'s checks in order: a non-string path throws, an unknown path gets UnknownObject, a missing interface UnknownInterface with a message, then no handler, no declaration or a signature mismatch drop the call |
| Bus.DispatchAccepts | src/woodstock/lib/dbus.js:42-104 | a call reaches its handler exactly when the path leads to an object with the interface, the interface has the function declared as a method and the signatures match |
| Bus.ReplyOf | src/woodstock/lib/dbus.js:104-124 | the reply goes to the sender, answers the serial, asks no reply, and carries the output signature and a body exactly when the signature is not empty |
| Bus.Changed | src/woodstock/lib/dbus.js:130 | the `reduce` keeps a key for every entry |
| Bus.NoticeOf | src/woodstock/lib/dbus.js:127-133 | only `PropertiesChanged` on the Properties interface gives an event, of the path, the interface name and the invalidated names read from the body |
| Bus.ChangedMapStep | src/woodstock/lib/dbus.js:130 | one more entry updates the map with its reading |
| Bus.ChangedHas | src/woodstock/lib/dbus.js:130 | every declared name is in the map |
| Bus.ChangedOnly | src/woodstock/lib/dbus.js:130 | only declared names are in the map |
| Bus.ChangedLast | src/woodstock/lib/dbus.js:130 | a later entry replaces an earlier one of the same name |
| Bus.EntryRead | src/woodstock/lib/dbus.js:130 | a property entry reads back as its name and its value |
| Bus.ChangedRead | src/woodstock/lib/dbus.js:130 | reading the changed entries gives their map |
| Bus.NoticeOfChanged | src/woodstock/lib/dbus.js:127-133 | what a listener receives from a three-part body |
| Bus.ChangedReceived | src/woodstock/lib/dbus.js:127-133 | an interface name, changed entries and invalidated names are read back as the name, the changed map and the names |
| Bus.ChangedRoundTrip | src/woodstock/lib/dbus-properties.js:73-103 | the signal `PropertiesChanged` sends has no invalidated names and reaches a listener as the object's path, the interface name, the changed properties with their values and an empty list |
| Bus.ListenerNamespace | src/woodstock/lib/dbus.js:136-142 | for paths of plain names, a listener on `/a/b` hears `/a/b` and everything below it, and nothing else |
| Bus.RootListener | src/woodstock/lib/dbus.js:137-140 | a listener on `/` hears only `/` itself |
| Bus.Deliveries | src/woodstock/lib/dbus.js:136-143 | each listener is fired at most once with the event |
| Bus.DeliveriesStep | src/woodstock/lib/dbus.js:136-143 | one more listener appends its delivery when its path is a prefix |
| Bus.KeyIndex | src/woodstock/lib/dbus.js:181 | the listener registered under a key, if any |
| Bus.SetListener | src/woodstock/lib/dbus.js:181 | `listenerMap.set` replaces the listener in place for a known key, otherwise appends; other listeners unchanged |
| Bus.RouteAttached | src/woodstock/lib/dbus.js:158-162 | the attached object is found at the path |
| Bus.DetachedUnlisted | src/woodstock/lib/dbus.js:151-162 | no child list holds a detached object |
| Bus.LastMissing | src/woodstock/lib/dbus.js:156-160 | when the path leads nowhere, the parent has no child of the last name |
| Bus.DBus.constructor | src/woodstock/lib/dbus.js:24-40 | a root object with no children or interfaces, a fresh connection, no listeners |
| Bus.DBus.HandleMethodCall | src/woodstock/lib/dbus.js:42-93 | the dispatch of `Dispatched`, sending the UnknownObject or UnknownInterface error |
| Bus.DBus.Answer | src/woodstock/lib/dbus.js:104-124 | an error sends nothing; otherwise the reply of `ReplyOf` is sent as METHOD_RETURN |
| Bus.DBus.HandleSignal | src/woodstock/lib/dbus.js:127-145 | a `PropertiesChanged` event goes to every listener whose path is a prefix of the signal's, in the map's order |
| Bus.DBus.PropertiesChanged | src/woodstock/lib/dbus-properties.js:73-103 | nothing is sent without a declared changed property; invalidated names throw; otherwise a mounted object sends the signal from its path, an unmounted one throws |
| Bus.DBus.EmitChanged | src/woodstock/lib/dbus-properties.js:96-102 | `this.dbus.driver.signal` sends from the object's path, or throws when it is not mounted |
| Bus.DBus.Listen | src/woodstock/lib/dbus.js:180-191 | `listen` records the listener and asks for its AddMatch with no callback |
| Bus.DBus.Watch | src/woodstock/lib/dbus.js:168-178 | `watch` asks for its AddMatch and hands the answer to the callback |
| Bus.DBus.Attach | src/woodstock/lib/dbus.js:151-166 | `attach` refuses an unnormalised, relative or taken path; otherwise the path then leads to the object, whose object path is the path |
| Bus.DBus.Place | src/woodstock/lib/dbus.js:158-162 | the objects on the way are made and the object is hung at the path |
| Bus.MatchRule | src/woodstock/lib/dbus.js:182 | the match rule text of `listen` and `watch`; `DBus.Listen` and `DBus.Watch` state that it is sent (also line 169) |
| Bus.AddMatch | src/woodstock/lib/dbus.js:183-190 | the AddMatch call to the bus daemon with the rule as its one STRING argument; `DBus.Listen` and `DBus.Watch` state that it is sent (also lines 170-177) |
| Bus.DBus.Hang | src/woodstock/lib/dbus.js:160-162 | the object named by the last name is added as the last child of its parent; afterwards the path leads to it, its path names are the path, and the objects to mount are those at and below it |
| ObjectManager.Declaring | src/woodstock/lib/dbus-object-manager.js:31-32 | exactly the interfaces that declare a property, in order |
| ObjectManager.IfaceEntry | src/woodstock/lib/dbus-object-manager.js:33-36 | an interface's entry is `{sa{sv}}` of its name and `getAll`, and fails exactly when `getAll` does |
| ObjectManager.IfaceEntriesOf | src/woodstock/lib/dbus-object-manager.js:31-39 | the `reduce` fails exactly when a declaring interface's `getAll` fails; otherwise one entry per declaring interface, in order |
| ObjectManager.IfaceEntriesStep | src/woodstock/lib/dbus-object-manager.js:31-39 | one more interface: skipped without declared properties, else its entry or its error |
| ObjectManager.IfaceEntriesStuck | src/woodstock/lib/dbus-object-manager.js:31-39 | once an entry fails the whole `reduce` fails with its error |
| ObjectManager.SnapshotAt | src/woodstock/lib/dbus-object-manager.js:26 | each visited object with its object path and interfaces (also line 30) |
| ObjectManager.ObjectSignatures | src/woodstock/lib/dbus-object-manager.js:8 | the entry signatures compose to `a{oa{sa{sv}}}` (also lines 25, 39) |
| ObjectManager.ObjectEntry | src/woodstock/lib/dbus-object-manager.js:27-41 | an object without a Properties interface has no entry; one with it fails exactly when its interfaces' entries fail |
| ObjectManager.ObjectEntryShape | src/woodstock/lib/dbus-object-manager.js:29-40 | an object's entry is `{oa{sa{sv}}}` of its path and its interfaces' entries |
| ObjectManager.WithProperties | src/woodstock/lib/dbus-object-manager.js:27-28 | exactly the objects with a Properties interface, in order |
| ObjectManager.ManagedObjects | src/woodstock/lib/dbus-object-manager.js:24-47 | `GetManagedObjects` gives an `a{oa{sa{sv}}}` array |
| ObjectManager.ManagedFails | src/woodstock/lib/dbus-object-manager.js:26-42 | the walk fails exactly when an object with a Properties interface has an entry that fails |
| ObjectManager.ManagedEntries | src/woodstock/lib/dbus-object-manager.js:26-42 | otherwise one entry per object with a Properties interface, in visit order |
| ObjectManager.ManagedCovers | src/woodstock/lib/dbus-object-manager.js:26 | the walk covers the manager's object and every object below it, the object first |
| ObjectManager.ManagedStep | src/woodstock/lib/dbus-object-manager.js:26-42 | one more object adds its entry, nothing, or its error |
| ObjectManager.ManagedStuck | src/woodstock/lib/dbus-object-manager.js:26-42 | once an object fails the walk fails with its error |
| ObjectManager.InterfacesOf | src/woodstock/lib/dbus-object-manager.js:31-39 | the `reduce` for one object returns its interfaces' array or the error |
| ObjectManager.EntryOf | src/woodstock/lib/dbus-object-manager.js:27-41 | the visit's callback gives the object's entry |
| ObjectManager.SnapshotCovered | src/woodstock/lib/dbus-object-manager.js:26 | every visited object's interfaces are known |
| ObjectManager.GetManagedObjects | src/woodstock/lib/dbus-object-manager.js:24-47 | the visit pushes exactly `ManagedObjects` |
| GattCharacteristic.ValueDeclared | src/woodstock/bluez/gatt-characteristic1.js:26-40 | of the characteristic's properties only `Value` is named `Value`, of type `ay` |
| GattCharacteristic.MethodTable | src/woodstock/bluez/gatt-characteristic1.js:5-23 | the in and out signatures of ReadValue, WriteValue, StartNotify, StopNotify and Confirm |
| GattCharacteristic.OptsValue | src/woodstock/bluez/gatt-characteristic1.js:49-51 | the `a{sv}` options value holds one entry per named value |
| GattCharacteristic.ParseOptsRead | src/woodstock/bluez/gatt-characteristic1.js:49-51 | `parseOpts` reads options back as the map they stand for |
| GattCharacteristic.OptsMapNames | src/woodstock/bluez/gatt-characteristic1.js:50 | the map's names are exactly the entries' names |
| GattCharacteristic.OptsMapLast | src/woodstock/bluez/gatt-characteristic1.js:50 | each name maps to the value of its last entry |
| GattCharacteristic.BytesRoundTrip | src/woodstock/bluez/gatt-read-notify-char.js:44 | byte values and `ay` values convert back and forth exactly (also `gatt-write-indicate-char.js` line 43) |
| GattCharacteristic.BytesBuiltFrom | src/woodstock/bluez/gatt-read-notify-char.js:44 | `new ARRAY('ay', bs)` builds its elements from the numbers |
| GattCharacteristic.ByteArrayBuilt | src/woodstock/bluez/gatt-read-notify-char.js:44 | `new ARRAY('ay', bs)` of byte numbers is their `ay` value |
| GattCharacteristic.ByteArrayRead | src/woodstock/bluez/gatt-read-notify-char.js:44 | an `ay` value evaluates to its numbers |
| GattCharacteristic.Written | src/woodstock/bluez/gatt-write-indicate-char.js:42-43 | `WriteValue` replies first when there is a callback, then emits the written bytes with the options |
| GattCharacteristic.WrittenBytes | src/woodstock/bluez/gatt-write-indicate-char.js:43 | `Buffer.from(val.eval())` holds exactly the bytes of `val` |
| GattCharacteristic.Accepted | src/woodstock/bluez/gatt-read-notify-char.js:48-55 | `update` keeps an array of integers 0..255 as it is, copies a buffer, and throws `invalid value` for anything else |
| GattCharacteristic.NotifyFlags | src/woodstock/bluez/gatt-read-notify-char.js:14-20 | the flags are the base flag, then `indicate` when asked, else `notify` when asked |
| GattCharacteristic.ValueChange | src/woodstock/bluez/gatt-read-notify-char.js:57-60 | `PropertiesChanged(this, ['Value'])` always has a signal to send, with the new bytes |
| GattCharacteristic.ValueEntry | src/woodstock/bluez/gatt-read-notify-char.js:59 | the one changed entry is `Value` with the new bytes |
| GattCharacteristic.ValueNotice | src/woodstock/bluez/gatt-read-notify-char.js:57-60 | a listener receives exactly the new bytes as `Value` and nothing invalidated |
| GattCharacteristic.Reporter | src/woodstock/bluez/gatt-read-notify-char.js:58 | the Properties interface found is an object of the tree |
| GattCharacteristic.Announce | src/woodstock/bluez/gatt-read-notify-char.js:59 | the Properties interface sends `PropertiesChanged` for `Value` from its object |
| GattCharacteristic.ReportValue | src/woodstock/bluez/gatt-read-notify-char.js:57-60 | on a notifying characteristic, the object's Properties interface, if any, reports the new `Value` |
| GattCharacteristic.ServicePath | src/woodstock/bluez/gatt-characteristic1.js:55-56 | `Service` is the path of the object above, or the error reading a missing object or parent throws |
| GattCharacteristic.Descriptors | src/woodstock/bluez/gatt-characteristic1.js:58-59 | `Descriptors` are the children's paths in order, each the characteristic's path plus the child's name |
| GattCharacteristic.ParseOpts | src/woodstock/bluez/gatt-characteristic1.js:49-51 | `parseOpts`; `ParseOptsRead` states that it reads options back as `OptsMap` |
| GattCharacteristic.OptsMap | src/woodstock/bluez/gatt-characteristic1.js:50 | the options as a map; `OptsMapNames` and `OptsMapLast` state its names and values |
| GattReadNotify.Offset | src/woodstock/bluez/gatt-read-notify-char.js:42 | the offset `slice` sees, `ToIntegerOrInfinity(ToNumber(opts.offset \|\| 0))`: a number as it is, a falsy value as 0, a string through `StringToInteger`, an array through its comma-joined text; exactly a non-zero bigint throws |
| GattReadNotify.SliceStart | src/woodstock/bluez/gatt-read-notify-char.js:43 | `slice` starts at the offset within the list, counts a negative offset back from the end, clamps to both ends, and takes infinities to the ends |
| GattReadNotify.OffsetOfText | src/woodstock/bluez/gatt-read-notify-char.js:43 | a number's text, and an array holding only that number, are read as the number; the empty array as 0 |
| GattReadNotify.OffsetOfPair | src/woodstock/bluez/gatt-read-notify-char.js:43 | an array of two numbers joins to text with a comma and is read as 0 |
| JsStrings.NumberTextRead | src/woodstock/bluez/gatt-read-notify-char.js:43 | `ToNumber` reads a number's decimal text, with `-` when negative, back as the number |
| JsStrings.LeadingSpaceRead | src/woodstock/bluez/gatt-read-notify-char.js:43 | white space before a text does not change the number read |
| JsStrings.HexRead | src/woodstock/bluez/gatt-read-notify-char.js:43 | `0x` and hexadecimal digits are read as their value |
| JsStrings.FractionRead | src/woodstock/bluez/gatt-read-notify-char.js:43 | digits with a fraction after `.` are read as the whole part, the fraction cut off |
| JsStrings.ExponentRead | src/woodstock/bluez/gatt-read-notify-char.js:43 | digits, `e`, digits are read as the first digits times ten to the second, truncated |
| JsStrings.LetterRead | src/woodstock/bluez/gatt-read-notify-char.js:43 | a text starting with a letter other than the `I` of `Infinity` is `NaN` and read as 0 |
| JsStrings.CommaRead | src/woodstock/bluez/gatt-read-notify-char.js:43 | a text of digits and `-` with a comma is `NaN` and read as 0 |
| GattReadNotify.ReadResult | src/woodstock/bluez/gatt-read-notify-char.js:40-45 | `ReadValue` answers the bytes of `Value` from the offset on, as `ay`, or the error reading the options throws |
| GattReadNotify.ReadWhole | src/woodstock/bluez/gatt-read-notify-char.js:40-45 | without an offset the whole `Value` is read |
| GattReadNotify.ReadFrom | src/woodstock/bluez/gatt-read-notify-char.js:40-45 | with a `uint16` offset n, the bytes from n on are read, none past the end |
| GattReadNotify.ReadNotifyCharacteristic.constructor | src/woodstock/bluez/gatt-read-notify-char.js:11-32 | UUID, empty `Value`, `read` and the notify flag, not notifying |
| GattReadNotify.ReadNotifyCharacteristic.Create | src/woodstock/bluez/gatt-read-notify-char.js:9-33 | `new` throws exactly without a UUID, otherwise as the constructor |
| GattReadNotify.ReadNotifyCharacteristic.Own | src/woodstock/bluez/gatt-read-notify-char.js:12-32 | the interface has `Value`, `ReadValue`, no `WriteValue`, and `Notifying`, `StartNotify` exactly when notifiable |
| GattReadNotify.ReadNotifyCharacteristic.StartNotify | src/woodstock/bluez/gatt-read-notify-char.js:23-26 | sets `Notifying`, `Value` unchanged |
| GattReadNotify.ReadNotifyCharacteristic.StopNotify | src/woodstock/bluez/gatt-read-notify-char.js:28-31 | clears `Notifying`, `Value` unchanged |
| GattReadNotify.ReadNotifyCharacteristic.ReadValue | src/woodstock/bluez/gatt-read-notify-char.js:40-45 | answers `ReadResult` of the current `Value` |
| GattReadNotify.ReadNotifyCharacteristic.Update | src/woodstock/bluez/gatt-read-notify-char.js:47-61 | `update` sets `Value` from an accepted payload and reports it while notifying; otherwise throws and changes nothing |
| GattWriteRead.ReadOwnWrite | src/woodstock/bluez/gatt-write-read-char.js:36-46 | a device reads back what it wrote, as often as it reads |
| GattWriteRead.ReadOtherWrite | src/woodstock/bluez/gatt-write-read-char.js:38-45 | a read by another device gets nothing and drops the write, so the writer then gets nothing |
| GattWriteRead.ReadAnswers | src/woodstock/bluez/gatt-write-read-char.js:36-46 | a read answers nothing or the reading device's own write, and the cache is kept or dropped |
| GattWriteRead.WriteReadCharacteristic.constructor | src/woodstock/bluez/gatt-write-read-char.js:17-29 | UUID, `read`+`write` flags when readable else `write`, no cache |
| GattWriteRead.WriteReadCharacteristic.Create | src/woodstock/bluez/gatt-write-read-char.js:17-29 | `new` throws exactly without a UUID, otherwise as the constructor |
| GattWriteRead.WriteReadCharacteristic.Own | src/woodstock/bluez/gatt-write-read-char.js:21-28 | no `Value` property; `ReadValue` exactly when readable; `WriteValue` always |
| GattWriteRead.WriteReadCharacteristic.ReadValue | src/woodstock/bluez/gatt-write-read-char.js:36-46 | `readValue` answers and updates the cache as `CacheRead`, or the option error |
| GattWriteRead.WriteReadCharacteristic.WriteValue | src/woodstock/bluez/gatt-write-read-char.js:48-53 | keeps the write in the cache, replies, then emits the bytes; a bad option list throws |
| GattWriteRead.CacheRead | src/woodstock/bluez/gatt-write-read-char.js:36-46 | the read against the cache; `ReadOwnWrite`, `ReadOtherWrite` and `ReadAnswers` state it |
| GattWriteIndicate.WriteIndicateCharacteristic.constructor | src/woodstock/bluez/gatt-write-indicate-char.js:11-32 | UUID, empty `Value`, `write` and the notify flag, not notifying |
| GattWriteIndicate.WriteIndicateCharacteristic.Create | src/woodstock/bluez/gatt-write-indicate-char.js:9-33 | `new` throws exactly without a UUID, otherwise as the constructor |
| GattWriteIndicate.WriteIndicateCharacteristic.Own | src/woodstock/bluez/gatt-write-indicate-char.js:12-32 | the interface has `Value`, `WriteValue`, no `ReadValue`, and `Notifying`, `StartNotify` exactly when notifiable |
| GattWriteIndicate.WriteIndicateCharacteristic.StartNotify | src/woodstock/bluez/gatt-write-indicate-char.js:23-26 | sets `Notifying` and nothing else |
| GattWriteIndicate.WriteIndicateCharacteristic.StopNotify | src/woodstock/bluez/gatt-write-indicate-char.js:28-31 | clears `Notifying` and nothing else |
| GattWriteIndicate.WriteIndicateCharacteristic.WriteValue | src/woodstock/bluez/gatt-write-indicate-char.js:35-44 | keeps the write in the cache, replies, then emits the bytes; `Value` unchanged; a bad option list throws |
| GattWriteIndicate.WriteIndicateCharacteristic.Update | src/woodstock/bluez/gatt-write-indicate-char.js:46-60 | `update` sets `Value` from an accepted payload and reports it while notifying; otherwise throws and changes nothing |
| GattWriteIndicate.WriteIndicateCharacteristic.Report | src/woodstock/bluez/gatt-write-indicate-char.js:56-59 | the new `Value` is reported through the object's Properties interface |
| GattService.ServiceDeclared | src/woodstock/bluez/gatt-service1.js:10-14 | `Primary` is declared `b` and `Characteristics` `ao` |
| GattService.Own | src/woodstock/bluez/gatt-service1.js:21-38 | the interface has the service's UUID and Primary, no Device or Includes value, and no handler |
| GattService.ConstructAsWritten | src/woodstock/bluez/gatt-service1.js:22-34 | the constructor succeeds exactly once per class; the second `defineProperty` throws |
| GattService.SecondServiceRefused | src/woodstock/bluez/gatt-service1.js:26-33 | a second service from one class throws `Cannot redefine property: Characteristics` |
| GattService.Construct | src/woodstock/bluez/gatt-service1.js:22-25 | a service keeps its UUID and coerces Primary, as the constructor does whenever it succeeds |
| GattService.Build | src/woodstock/bluez/gatt-service1.js:22-25 | one service per set of properties, each with its UUID and Primary |
| GattService.BuildAgrees | src/woodstock/bluez/gatt-service1.js:22-34 | the corrected construction agrees with the written one wherever that succeeds |
| GattService.Characteristics | src/woodstock/bluez/gatt-service1.js:27-32 | the getter throws for an unplaced service, else lists no more paths than children |
| GattService.CharacteristicFound | src/woodstock/bluez/gatt-service1.js:30 | `find` by name succeeds exactly when some interface has the name |
| GattService.ListedChild | src/woodstock/bluez/gatt-service1.js:29-31 | every listed path is a child carrying a characteristic |
| GattService.ChildListed | src/woodstock/bluez/gatt-service1.js:29-31 | every child carrying a characteristic is listed |
| GattService.CharacteristicsListed | src/woodstock/bluez/gatt-service1.js:27-32 | `Characteristics` lists a path exactly when it is the path of a child that carries a characteristic |
| NetworkManager.Added | src/woodstock/nm/NetworkManager.js:44-50 | the path's list gains the callback at the end; other paths unchanged |
| NetworkManager.Removed | src/woodstock/nm/NetworkManager.js:52-60 | only the path's list can change |
| NetworkManager.RemovedSpec | src/woodstock/nm/NetworkManager.js:52-60 | removing drops the first registration of the callback and keeps the others in order; without one nothing changes |
| NetworkManager.AddedCount | src/woodstock/nm/NetworkManager.js:44-50 | adding registers the callback once more under the path and nothing else |
| NetworkManager.RemovedCount | src/woodstock/nm/NetworkManager.js:52-60 | removing takes one registration away when there is one and nothing else |
| NetworkManager.AddRemove | src/woodstock/nm/NetworkManager.js:44-60 | adding a callback and removing it again gives every path its callbacks back |
| NetworkManager.NetworkManager.constructor | src/woodstock/nm/NetworkManager.js:19 | no signal handlers |
| NetworkManager.NetworkManager.AddSignalHandle | src/woodstock/nm/NetworkManager.js:44-50 | `addSignalHandle` leaves the table `Added` |
| NetworkManager.NetworkManager.RemoveSignalHandle | src/woodstock/nm/NetworkManager.js:52-60 | `removeSignalHandle` leaves the table `Removed` |
| NetworkManager.NetworkManager.HandleSignal | src/woodstock/nm/NetworkManager.js:38-42 | `handleSignal` calls the path's callbacks in order, only registered ones, none for a missing message |
| NetworkManager.IsConnectivity | src/woodstock/nm/NetworkManager.js:181-186 | an error is passed on; otherwise whether the first answer is 4 |
| NetworkManager.ActiveConnections | src/woodstock/nm/NetworkManager.js:346-365 | an error is passed on; paths come only from a reply of the checked shape, one per element |
| NetworkManager.ActiveConnectionsRead | src/woodstock/nm/NetworkManager.js:357-361 | the bus's variant of an `ao` yields its paths |
| NetworkManager.ActiveConnectionsOther | src/woodstock/nm/NetworkManager.js:362-363 | a reply of another shape yields no paths and no error |
| NetworkManager.CharBytes | src/woodstock/nm/NetworkManager.js:284 | a character's UTF-8 bytes are 1 to 4 bytes, and an ASCII character is its code |
| NetworkManager.Utf8 | src/woodstock/nm/NetworkManager.js:284 | `Array.from(Buffer.from(s))` gives bytes, between one and four per character |
| NetworkManager.Utf8Ascii | src/woodstock/nm/NetworkManager.js:284 | the bytes of an ASCII string are its character codes |
| NetworkManager.SettingsSections | src/woodstock/nm/NetworkManager.js:309-328 | the sections come in the order connection, ipv4, ipv6, 802-11-wireless, 802-11-wireless-security |
| NetworkManager.FindAt | src/woodstock/nm/NetworkManager.js:309-328 | the first entry with the key is found |
| NetworkManager.SettingAt | src/woodstock/nm/NetworkManager.js:253-328 | a setting is the value inside its variant in its section |
| NetworkManager.SettingsSsid | src/woodstock/nm/NetworkManager.js:283-292 | the network is named by the SSID's bytes |
| NetworkManager.SettingsSecurity | src/woodstock/nm/NetworkManager.js:295-307 | the network is secured by WPA-PSK with the password |
| NetworkManager.SettingsId | src/woodstock/nm/NetworkManager.js:264-267 | the connection is named by the SSID |
| NetworkManager.ByteArrayPush | src/woodstock/nm/NetworkManager.js:284 | pushing a BYTE extends the `ay` by that byte |
| NetworkManager.PushEntry | src/woodstock/nm/NetworkManager.js:256-307 | one `{sv}` setting pushed at the end |
| NetworkManager.PushSection | src/woodstock/nm/NetworkManager.js:309-328 | one section pushed at the end |
| NetworkManager.SsidBytes | src/woodstock/nm/NetworkManager.js:283-284 | the SSID's UTF-8 bytes as an `ay` |
| NetworkManager.ConnectionSection | src/woodstock/nm/NetworkManager.js:255-267 | the `connection` section: type, fresh uuid, id |
| NetworkManager.AutomaticSection | src/woodstock/nm/NetworkManager.js:269-279 | the `ipv4`/`ipv6` section: method auto |
| NetworkManager.WirelessSection | src/woodstock/nm/NetworkManager.js:282-292 | the `802-11-wireless` section: mode and ssid |
| NetworkManager.SecuritySection | src/woodstock/nm/NetworkManager.js:295-307 | the security section: auth-alg, key-mgmt, psk |
| NetworkManager.EmptySettings | src/woodstock/nm/NetworkManager.js:253 | `new ARRAY('a{sa{sv}}')` is empty |
| NetworkManager.AddAndActivateConnection | src/woodstock/nm/NetworkManager.js:252-341 | the call's body is the settings, the device path and the access point path, signature `a{sa{sv}}oo` |
| NetworkDevices.Paths | src/woodstock/nm/Device.js:37 | the devices' object paths, in order (also line 39) |
| NetworkDevices.LastOccurrence | src/woodstock/nm/Device.js:37 | the occurrences of a path are those before the last element and the last one (also line 39) |
| NetworkDevices.RemoveEachCount | src/woodstock/nm/Device.js:37 | removing the handler under each old path takes away one registration per occurrence, as far as there are any, and leaves other callbacks alone |
| NetworkDevices.AddEachCount | src/woodstock/nm/Device.js:39 | adding the handler under each new path registers it once more per occurrence and leaves other callbacks alone |
| NetworkDevices.Reassigned | src/woodstock/nm/Device.js:36-40 | replacing the device list moves the handler's registrations from the old paths to the new ones, and no other callback's |
| NetworkDevices.UnregisterAll | src/woodstock/nm/Device.js:37 | `forEach(removeSignalHandle)` leaves the table `RemoveEach` |
| NetworkDevices.RegisterAll | src/woodstock/nm/Device.js:39 | `forEach(addSignalHandle)` leaves the table `AddEach` |
| NetworkDevices.EnqueuedSpec | src/woodstock/nm/Device.js:86-94 | after `newJob` the job is queued, the old queue is kept in front, a job is added exactly when none like it was queued, and asking again changes nothing |
| NetworkDevices.EnqueuedGrows | src/woodstock/nm/Device.js:87-92 | `newJob` adds a job exactly when none like it is queued |
| NetworkDevices.EnqueueAllSpec | src/woodstock/nm/Device.js:133-140 | after queueing a reload per path, each path has one queued, the old queue is kept, and each added job is a fresh reload of one of the paths |
| NetworkDevices.Merge | src/woodstock/nm/Device.js:105 | the refreshed properties override the old ones, the others are kept, the path is kept, and the IPv4 information is dropped until read again |
| NetworkDevices.StaleInfoKept | src/woodstock/nm/Device.js:105-112 | a connected device that refreshes as disconnected keeps its old IPv4 information as written |
| NetworkDevices.InfoNeverDropped | src/woodstock/nm/Device.js:105 | as written, a refresh keeps the IPv4 information, the path and the new properties |
| NetworkDevices.FirstIndex | src/woodstock/nm/Device.js:103 | `findIndex` is the first device with the path, or -1 when none has it |
| NetworkDevices.Device.constructor | src/woodstock/nm/Device.js:29-43 | no devices, no jobs, nothing running, no tick pending |
| NetworkDevices.Device.SetDevices | src/woodstock/nm/Device.js:36-40 | the setter unregisters the handler for each old path and registers it for each new one; other callbacks untouched |
| NetworkDevices.Device.Replace | src/woodstock/nm/Device.js:113 | the device at the index is replaced and the others kept (also line 117) |
| NetworkDevices.Device.ReqSched | src/woodstock/nm/Device.js:58-62 | one tick is asked for exactly when none is pending |
| NetworkDevices.Device.NewJob | src/woodstock/nm/Device.js:86-94 | the queue becomes `Enqueued` and a tick is asked for when a job was added |
| NetworkDevices.Device.HandleSignals | src/woodstock/nm/Device.js:52-56 | a device `StateChanged` signal queues a reload of its path; anything else is ignored |
| NetworkDevices.Device.Schedule | src/woodstock/nm/Device.js:64-84 | with nothing running and a job queued, the first job starts with its count raised; otherwise nothing starts |
| NetworkDevices.Device.Finish | src/woodstock/nm/Device.js:71-75 | a failed job started fewer than three times goes to the back of the queue; `working` is emptied and a tick asked for |
| NetworkDevices.Device.UpdateDevice | src/woodstock/nm/Device.js:96-124 | an error is passed on; an unknown path gives EUPDATE; otherwise the device is replaced by its refresh, with IPv4 information when connected |
| NetworkDevices.Device.HandleDeviceChanged | src/woodstock/nm/Device.js:126-144 | the devices found become the list and a reload is queued for each, or the error is passed on |
| NetworkDevices.Device.QueueReloads | src/woodstock/nm/Device.js:133-140 | a reload is queued for each path |
| NetworkDevices.Device.CompleteUpdate | src/woodstock/nm/Device.js:96-124 | a device reload completes: the error cases and the retry (also lines 71-75) |
| NetworkDevices.Device.CompleteDeviceChanged | src/woodstock/nm/Device.js:126-144 | a device-list reload completes: the new list and its reloads, or the retry (also lines 71-75) |
| NetworkDevices.Device.OnDeviceChangedAsWritten | src/woodstock/nm/Device.js:44-49 | as written the reset cancels the running job but keeps it in `working`, so nothing can run again (also lines 100, 130) |
| NetworkDevices.Device.OnDeviceChanged | src/woodstock/nm/Device.js:44-49 | corrected: the reset also empties `working`, so nothing is stalled |
| NetworkDevices.StalledAfterReset | src/woodstock/nm/Device.js:44-49 | as written, after a reset during a reload nothing starts though a device-list reload is queued (also lines 64-67) |
| NetworkDevices.StartsAfterReset | src/woodstock/nm/Device.js:44-49 | corrected, the device-list reload starts after the reset (also lines 64-70) |
| NetworkDevices.Enqueued | src/woodstock/nm/Device.js:86-94 | the queue after `newJob`; `EnqueuedSpec` and `EnqueuedGrows` state it |
| NetworkDevices.MergeAsWritten | src/woodstock/nm/Device.js:105 | the refresh as written, whose `Ipv4Info: undefined` misses the stored `Ipv4NetInfo`; `StaleInfoKept` states the consequence |
| NetworkDevices.Connected | src/woodstock/nm/Device.js:106 | state 100 and a truthy `Ip4Config` other than `/`; `StaleInfoKept` and `Device.UpdateDevice` use it |
| Bled.SumAppend | src/services/Bled.js:30 | the `forEach` sum grows by each byte |
| Bled.JsRem256 | src/services/Bled.js:24 | JavaScript's `% 256` is zero exactly when the Euclidean remainder is, and lies strictly between -256 and 256 |
| Bled.Checksum | src/services/Bled.js:28-32 | `checksum` is the byte sum modulo 256 |
| Bled.Validate | src/services/Bled.js:16-25 | `validate` accepts exactly the frames with byte 1 equal to the length and byte 2 equal to the sum of the bytes after it modulo 256 (a two-byte frame `[x, 2]` passes) |
| Bled.ModZeroIffEqual | src/services/Bled.js:22-24 | the remainder test holds exactly when byte 2 is the sum modulo 256 |
| Bled.HeaderChecksumValid | src/services/Bled.js:203-207 | a header `[0, len, ck, cmd]` with the checksum of the rest validates exactly when `len` is the frame length (also lines 235-239, 250-255) |
| Bled.BuildFrame | src/services/Bled.js:203-207 | the frame is `[0, len, ck, cmd]` and the payload, `ck` being the checksum from the command on (also lines 235-239, 250-255) |
| Bled.Ping | src/services/Bled.js:202-209 | `ping` builds `[0, 8, ck, 0x30]` and the session, which validates exactly when the session has four bytes |
| Bled.VersionFrame | src/services/Bled.js:221-223 | `getVersion`'s frame `[0, 4, 0x31, 0x31]` validates |
| Bled.SetStationId | src/services/Bled.js:229-242 | a non-Buffer id fails; otherwise `[0, len, ck, 0x32]` and the id, valid exactly when the id has at most 251 bytes |
| Bled.SetStationStatus | src/services/Bled.js:248-257 | `[0, 5, ck, 0x33, status mod 256]` always validates |
| Bled.ClassifyReply | src/services/Bled.js:140-159 | a chunk is a command reply exactly when it starts with 0, is longer than 4, validates and has one of the five command codes |
| Bled.ClassifySpsData | src/services/Bled.js:115-118 | exactly the chunks starting with a non-zero byte are transparent data |
| Bled.ClassifyStatus | src/services/Bled.js:119-139 | the status events are exactly `[0, x, x]` with x in 0x20..0x23 |
| Bled.ClassifySpsRes | src/services/Bled.js:160-161 | `00 fd fd` reaches the SPS_RES test |
| Bled.ReplyPayload | src/services/Bled.js:172 | the caller receives the frame without its 4-byte header |
| Bled.StationIdReply | src/services/Bled.js:140-172 | a station-id reply is classified as such and carries the id back |
| Bled.ValidFrame | src/services/Bled.js:16-25 | byte 1 is the length and byte 2 the sum of the later bytes modulo 256; `Validate` states that `validate` accepts exactly these |
| Bled.Classify | src/services/Bled.js:112-161 | the receiver's tests in order; `ClassifyReply`, `ClassifySpsData`, `ClassifyStatus` and `ClassifySpsRes` state which chunks reach which branch |
| LocalAuth.Verify | src/services/localAuth.js:38-40 | every token is accepted |
| LocalAuth.LocalAuthAsWritten.constructor | src/services/localAuth.js:2-5 | Idle, no timer |
| LocalAuth.LocalAuthAsWritten.Request | src/services/localAuth.js:17-27 | in Idle: Working, the challenge, and a timer armed for 60 s later; otherwise EBUSY and nothing changes |
| LocalAuth.LocalAuthAsWritten.Auth | src/services/localAuth.js:29-36 | in Working: `abc` then Idle, the timer left armed (`this.timer` is never set); otherwise ESTATE |
| LocalAuth.LocalAuthAsWritten.Fire | src/services/localAuth.js:20-22 | the earliest timer fires and sets Idle |
| LocalAuth.StaleTimerCutsSession | src/services/localAuth.js:17-36 | request, auth, request: the first timer ends the second session after 59980 ms |
| LocalAuth.LocalAuth.constructor | src/services/localAuth.js:2-5 | Idle, no timer |
| LocalAuth.LocalAuth.Request | src/services/localAuth.js:17-27 | in Idle: Working and the challenge; otherwise EBUSY and nothing changes |
| LocalAuth.LocalAuth.Auth | src/services/localAuth.js:29-36 | in Working: `abc`, Idle and no timer left; otherwise ESTATE |
| LocalAuth.LocalAuth.Fire | src/services/localAuth.js:20-22 | a timer ends only the session that armed it, after the full 60 s |
| Led.ParseHexPair | src/lib/led.js:240-242 | two hex digits read as a number below 256 |
| Led.ConvertColor | src/lib/led.js:230-238 | succeeds exactly on `#` and six hex digits, otherwise fails with "color is illegal"; each channel is below 256 |
| Led.ConvertColorRoundTrip | src/lib/led.js:230-242 | every colour written `#rrggbb` is read back as itself |
| Led.ConvertColorCaseInsensitive | src/lib/led.js:231-236 | a colour with some lower-case hex digits in upper case gives the same channels |
| Led.LedControl.constructor | src/lib/led.js:106-114 | the controller keeps its default colour and starts in Init with the bus not yet open and no timer |
| Led.LedControl.Opened | src/lib/led.js:22-24 | a failed `i2c.open` enters Err; a successful one keeps the bus and stays in Init |
| Led.LedControl.Programmed | src/lib/led.js:25-27 | a successful programming ends with the PWM registers at full brightness (line 37), then StandBy shows the default colour; a failed programming ends in Err with nothing changed, and a StandBy that throws on an illegal default colour ends in Err with the colour unchanged (also lines 31-38) |
| Led.LedControl.EnterStandBy | src/lib/led.js:41-50 | both timers of the state left are cleared and StandBy is installed; it shows `defaultColor`, or `#00ff00` when that is empty, at full brightness; an illegal default colour throws "color is illegal" and an unopened bus "Not initialized yet", before anything is written (also lines 4-14, 78-81, 116-118) |
| Led.LedControl.Run | src/lib/led.js:209-216 | refuses in Init and Err, an unknown type, a truthy non-number time or times, each with its message and nothing changed; otherwise Working is entered as `EnterWorking` states |
| Led.LedControl.EnterWorking | src/lib/led.js:54-76 | an illegal colour or an unopened bus leaves Working installed without timers and fails with its message; otherwise Working with the parsed colour, the blink type, the count of blinks, the LED dark, the blink timer armed and the close timer armed exactly when time is non-zero (also lines 4-14, 116-118, 230-232) |
| Led.LedControl.Stop | src/lib/led.js:218-221 | refuses in Err and changes nothing; otherwise StandBy is installed with no timer, and in Init before the bus opens the first register write then throws "Not initialized yet" |
| Led.LedControl.BlinkStep | src/lib/led.js:83-95 | a lit LED goes dark and counts one blink; a dark one with its blinks complete returns to StandBy as `EnterStandBy` states; otherwise it lights and re-arms, except alwaysOn, which stays lit without a timer |
| Led.LedControl.CloseTimerFires | src/lib/led.js:71-74 | the close timer ends Working in StandBy as `EnterStandBy` states |
| Upgrade.VersionOrderIsTextual | src/services/upgrade.js:9 | versions compare as strings: 0.10.0 is below 0.9.0 |
| Upgrade.JsonDocs | src/services/upgrade.js:52 | exactly the listed documents whose key ends in `.json` |
| Upgrade.KeyName | src/services/upgrade.js:48 | the document name ends in `.json` |
| Upgrade.VersionOfNamedKey | src/services/upgrade.js:55-57 | a key `product-date-version-hash.json` yields its third part as the version |
| Upgrade.LatestAsWritten | src/services/upgrade.js:52-54 | with the boolean comparator the first listed document is taken |
| Upgrade.Latest | src/services/upgrade.js:52-54 | the document picked is one of the listing |
| Upgrade.LatestIsNewest | src/services/upgrade.js:52-54 | no listed document was modified later than the one picked |
| Upgrade.StrLessPrefix | src/services/upgrade.js:9 | string order is kept under a common prefix (also line 52) |
| Upgrade.OldestFirstListing | src/services/upgrade.js:52-54 | listed oldest first, the source takes the older document where the newest is meant |
| Upgrade.OfferIsNewestJson | src/services/upgrade.js:49-57 | an offer comes from a successful fetch and is its newest `.json` document with the version its key names |
| Upgrade.NoOfferWithoutData | src/services/upgrade.js:50-51 | a fetch error, no data or an empty listing offers nothing (also line 53) |
| Upgrade.Download.constructor | src/services/upgrade.js:63 | a download of one key and version, not yet listened to or destroyed |
| Upgrade.UpgradeCtl.constructor | src/services/upgrade.js:18-32 | the installed version is kept and no download runs |
| Upgrade.UpgradeCtl.SetDownloader | src/services/upgrade.js:38-46 | the previous download loses its listeners and is destroyed; the new one is listened to |
| Upgrade.UpgradeCtl.OnFetchData | src/services/upgrade.js:49-75 | a download starts exactly when an offer's version is above the installed one and above any running download's version; it is of the offered key and version and replaces the previous download; otherwise nothing changes |
| Upgrade.IsHighVersion | src/services/upgrade.js:9 | `current < next` on strings; `VersionOrderIsTextual` states its textual order |
| Upgrade.VersionOf | src/services/upgrade.js:55-57 | the third of four `-` parts of the key without `.json`, trimmed; `VersionOfNamedKey` states it |
| Upgrade.Offer | src/services/upgrade.js:49-57 | the document and version a fetch offers, using the corrected `Latest`; `OfferIsNewestJson` and `NoOfferWithoutData` state it |

## Left out

- DOUBLE: floating point is not modelled; the value factory answers "DOUBLE not modelled", while `explode` still accepts `d`.
- INT64 and UINT64: their construction checks are modelled, but they write and read nothing, as in the source; their unfinished read and write are not modelled further.
- Strings are one byte per character. Node writes non-ASCII text as UTF-8 while the length prefix counts UTF-16 units; that mismatch is not modelled, and the round trips require ASCII text.
- Sockets, the connection setup and process spawning in `dbus-driver.js` are not modelled. The driver records what it would write in `sent`, and received bytes are a parameter.
- Timers, `process.nextTick` and EventEmitter listeners are modelled as explicit steps or recorded events. Examples are `NetworkDevices.Device.Schedule` for the pending tick, `LocalAuth` and `Led` firing methods for timers, and `Driver` events.
- Introspection XML (`dbus-interface.js`, `parse-xml.js`, `lib/dbus-interface-definition`) is not part of this model: an interface definition is a given table of methods and declared properties.
- Interface hooks run on attach, and `mounted` handlers beyond the list of objects they run on, are not modelled.
- ObjectTree.Tree.Attach: requires a detached child that is not an ancestor of the new parent. The source does not check this; violating it would make the tree cyclic.
- Getters (`Service`, `Descriptors`, `Characteristics`, the `dbus` getter) are functions of the tree; property values are JavaScript-like values (`Js`), with objects and functions as one truthy `JOther`.
- The GATT `WriteValue` methods require their value to be an `ay`, which the dispatcher's signature check guarantees before any handler runs.
- GATT characteristic constructors require a UUID; the `Create` methods model the throw without one.
- NetworkDevices: `initDevices` and the `mounted` flow of `Device.js` (lines 146-182) are not part of this model. The reload of the device list takes its result as a parameter.
- NetworkDevices: the `driver.signal` calls in `handleDeviceChanged` are not modelled.
- NetworkDevices: the replies of `GetAll` are given as entry lists, read with `OptsMap`.
- NetworkDevices: device property maps never hold `objPath`, `Ipv4Info` or `Ipv4NetInfo`, which the record keeps apart.
- NetworkDevices.Device.Schedule: requires a pending tick, since it stands for the callback `process.nextTick` runs.
- NetworkDevices.Device.CompleteUpdate: requires the job still running and not cancelled, since a cancelled job's callback returns at once.
- NetworkDevices.Device.Finish: requires the job still running and not cancelled, for the same reason.
- NetworkDevices.Device.CompleteDeviceChanged: requires the reload still running and not cancelled, for the same reason.
- NetworkDevices: `equal` on job data is structural equality of the model's data.
- NetworkManager: `UUID.v4()` is a parameter, and the connection-making and retry flows that only invoke the bus are not modelled.
- NetworkManager: an SSID is a sequence of Unicode scalar values, so a lone surrogate, which Node writes as the replacement character, is not modelled.
- Bled: the serial port, its write queue, reply timeouts and the firmware flashing are not modelled; the frames and their classification are.
- Led: the I2C register writes are not modelled; only the brightness last written to the first PWM register is kept.
- Upgrade: fetching, downloading and reading the version file are not modelled. The listing and the installed version are parameters; a download records only its listeners and destruction.
- Upgrade.LatestAsWritten: states the result under the TimSort of V8 7.0 and later (Node 11 and later). The insertion sort of older V8 versions, used for up to 10 elements, moves every document that is more recent than an earlier one ahead of it, so there the newest document comes first; their quicksort for longer listings is not modelled.
- Upgrade.OldestFirstListing: holds for the same engines as `Upgrade.LatestAsWritten`; on V8 before 7.0 the two-document listing it names would put the newer document first.
- Upgrade.UpgradeCtl.OnFetchData: takes the corrected `Latest` document rather than `docs[0]` after the sort of `src/services/upgrade.js:52-54`; the as-written choice is `Upgrade.LatestAsWritten`.
- Upgrade.Offer: uses the corrected `Latest`, as `Upgrade.UpgradeCtl.OnFetchData` does.
- NetworkDevices.Device.UpdateDevice: uses the corrected `Merge`, which drops the IPv4 information on each refresh; the as-written refresh of `src/woodstock/nm/Device.js:105`, which keeps it, is `NetworkDevices.MergeAsWritten`.
- Led.LedControl.Opened: requires the controller still in Init. A `stop` before the bus opens, after which the callback and the programming promise would replace the current state without clearing its timers, is not modelled.
- Led.LedControl.Programmed: requires the controller still in Init, for the same reason.
- Framing.MarshalFresh: refuses with "out of range" a value whose encoding ends with a string's NUL one byte past the 1 MiB buffer. In the source that NUL is dropped and `slice` returns the whole buffer; `Framing.Fresh` refuses it too.
- GattReadNotify.Offset: reads numeric text exactly, without the rounding to a double of `ToNumber`. So a text whose value is above 2^53, where doubles start to round, or past the double range, where it would read as `Infinity`, reads as the exact integer. A non-integer number, folded into `JOther`, reads as 0 rather than truncated; the option parser never produces one.
- GattReadNotify.JoinedText: writes a number of 21 or more digits as its digits, where JavaScript switches to exponent notation.
- JsStrings.StrLess: compares characters as code points. JavaScript compares UTF-16 code units, which orders characters above U+FFFF before U+E000 to U+FFFF; listing dates are ASCII, where the two agree.
- The captured 77-byte header of `src/woodstock/test/types.js:43-96` is not restated as a concrete lemma; header encoding is covered by the general marshalling and round-trip results.
- The logging helpers, HTTP routes, MQTT channel, provisioning, and the other services of the daemon are not part of this model.

## Findings

| source | as written | input that shows it | evidently intended | confidence | as-written member | corrected member |
|---|---|---|---|---|---|---|
| src/services/localAuth.js:20-22 | `request` arms a 60 s timer without keeping its handle, and `auth` (line 31) clears `this.timer`, which is never assigned | request at 0 ms, `auth` at 10 ms, request at 20 ms: the first timer fires at 60000 ms and ends the second session 59980 ms after it began | `auth` cancels the session's timer, so each timer ends only its own session | not executed | LocalAuth.StaleTimerCutsSession | LocalAuth.LocalAuth.Fire |
| src/services/upgrade.js:52 | `sort((a, b) => a.LastModified < b.LastModified)` returns a boolean, read as 1 or 0; under the TimSort of V8 7.0 and later (Node 11 and later) the listing order is then kept, and `docs[0]` is the first listed document | a listing of two documents modified 2018-10-01 and 2018-10-21, oldest first: the older one is taken | take the most recently modified document | not executed | Upgrade.OldestFirstListing | Upgrade.LatestIsNewest |
| src/woodstock/lib/dbus-properties.js:93 | `new ARRAY(iprops, 'as')` passes plain strings, which the ARRAY constructor refuses | `PropertiesChanged` with an invalidated property `Value` throws "elems contains non-TYPE object"; the model's `Properties.ChangedBody` and `Bus.DBus.PropertiesChanged` keep this behaviour | wrap each name in a STRING, which `Properties.Invalidated` does and `Bus.ChangedReceived` shows delivered | not executed | Properties.InvalidatedRefused | Properties.Invalidated |
| src/woodstock/bluez/gatt-service1.js:26-33 | the constructor defines `Characteristics` on the prototype each time, and the property is not configurable | two services made from one class: the second `new` throws "Cannot redefine property: Characteristics" | define the getter once per class | not executed | GattService.SecondServiceRefused | GattService.BuildAgrees |
| src/woodstock/nm/Device.js:44-49 | the reset cancels running jobs but leaves them in `working`, and a cancelled job never calls back to empty it (lines 100 and 130) | `NM_DeviceChanged` while a device reload runs: the queued DeviceChanged job never starts | empty `working` when cancelling | not executed | NetworkDevices.StalledAfterReset | NetworkDevices.StartsAfterReset |
| src/woodstock/nm/Device.js:105 | the refresh clears `Ipv4Info` but the information is stored as `Ipv4NetInfo` (line 112), so it is never cleared | a connected device with IPv4 information refreshed to state 30 with `Ip4Config` `/` keeps its old information | drop the IPv4 information on each refresh | not executed | NetworkDevices.StaleInfoKept | NetworkDevices.Merge |
