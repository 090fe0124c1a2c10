/** The message layout of `dbus-driver.js`: the type and flag codes, the header fields, and
    the bytes `wire` produces for a message, as functions of the message. The driver object
    that sends and receives them is in the `Driver` module. */
module Framing {
  import opened Wrappers
  import opened Octets
  import opened DBusTypes
  import Signature
  import opened Marshalling

  // ---------------------------------------------------------------------------------------
  // Message types and flags

  /** `encodeType`. */
  function EncodeType(t: string): (r: Result<nat>)
    ensures r.Ok? <==> t in {"METHOD_CALL", "METHOD_RETURN", "ERROR", "SIGNAL"}
    ensures r.Ok? ==> 1 <= r.value <= 4
  {
    if t == "METHOD_CALL" then Ok(1)
    else if t == "METHOD_RETURN" then Ok(2)
    else if t == "ERROR" then Ok(3)
    else if t == "SIGNAL" then Ok(4)
    else Err("invalid message type \"" + t + "\"")
  }

  /** `decodeType`: a `switch` on the header's type byte, compared with `===`. */
  function DecodeType(code: Js): (r: Result<string>)
    ensures r.Ok? <==> code.JNum? && 0 <= code.n <= 4
  {
    if code == JNum(0) then Ok("INVALID")
    else if code == JNum(1) then Ok("METHOD_CALL")
    else if code == JNum(2) then Ok("METHOD_RETURN")
    else if code == JNum(3) then Ok("ERROR")
    else if code == JNum(4) then Ok("SIGNAL")
    else Err("invalid message type code")
  }

  /** The four message types and their codes 1 to 4 correspond one to one; code 0 decodes to
      INVALID, which cannot be encoded. */
  lemma TypeCodes(t: string, code: int)
    ensures EncodeType(t).Ok? ==> DecodeType(JNum(EncodeType(t).value)) == Ok(t)
    ensures 1 <= code <= 4 ==> EncodeType(DecodeType(JNum(code)).value) == Ok(code)
    ensures DecodeType(JNum(0)) == Ok("INVALID") && EncodeType("INVALID").Err?
  {
  }

  /** The flags of a message; an absent flag is false. */
  datatype Flags = Flags(noReply: bool, noAutoStart: bool, interactiveAuth: bool)

  const NoFlags: Flags := Flags(false, false, false)

  /** `encodeFlags`: the three distinct bits, or-ed together; no flags object gives 0. */
  function EncodeFlags(flags: Option<Flags>): (x: nat)
    ensures x < 8
    ensures flags.None? ==> x == 0
  {
    if flags.None? then 0
    else (if flags.value.noReply then 1 else 0) + (if flags.value.noAutoStart then 2 else 0) +
         (if flags.value.interactiveAuth then 4 else 0)
  }

  /** `n & mask` is non-zero, for `mask` 1, 2 or 4: only the three low bits of `n` in two's
      complement matter, and they are `n % 8` (Euclidean, so also for negative `n`). */
  predicate HasBit(n: int, mask: nat)
    requires mask == 1 || mask == 2 || mask == 4
  {
    ((n % 8) / mask) % 2 == 1
  }

  /** `decodeFlags`: each flag set when its bit is set in the header's flags byte. */
  function DecodeFlags(code: Js): (f: Flags)
    ensures !code.JNum? ==> f == NoFlags
  {
    if code.JNum? then Flags(HasBit(code.n, 1), HasBit(code.n, 2), HasBit(code.n, 4)) else NoFlags
  }

  /** Decoding an encoded flags object gives it back, and encoding the flags decoded from a
      byte gives its three low bits. */
  lemma FlagsRoundTrip(f: Flags, x: nat)
    ensures DecodeFlags(JNum(EncodeFlags(Some(f)))) == f
    ensures EncodeFlags(Some(DecodeFlags(JNum(x)))) == x % 8
  {
    var r := x % 8;
    assert r in {0, 1, 2, 3, 4, 5, 6, 7};
  }

  // ---------------------------------------------------------------------------------------
  // Messages and header fields

  /** A message object. The header fields hold whatever JavaScript value the caller gave (or
      `unwire` read); `JUndefined` is an absent field. `body` is the list of TYPE objects,
      `None` when absent. */
  datatype Message = Message(
    msgType: string, flags: Option<Flags>, version: Js, serial: Js,
    path: Js, iface: Js, member: Js, errorName: Js, replySerial: Js,
    destination: Js, sender: Js, signature: Js, unixFds: Js,
    body: Option<seq<Value>>)

  /** JavaScript truthiness. `JOther` stands for objects and functions, which are truthy. */
  predicate Truthy(j: Js)
  {
    match j
    case JUndefined => false
    case JNum(n) => n != 0
    case JBig(n) => n != 0
    case JBool(b) => b
    case JStr(s) => s != []
    case JArr(_) => true
    case JOther => true
  }

  /** Header field `code` of a message, codes 1 to 9 in the order of the D-Bus
      Specification: path, interface, member, error name, reply serial, destination, sender,
      signature, unix fds. */
  function Field(m: Message, code: nat): Js
    requires 1 <= code <= 9
  {
    match code
    case 1 => m.path
    case 2 => m.iface
    case 3 => m.member
    case 4 => m.errorName
    case 5 => m.replySerial
    case 6 => m.destination
    case 7 => m.sender
    case 8 => m.signature
    case 9 => m.unixFds
  }

  /** `m[names[code]] = v`. */
  function WithField(m: Message, code: nat, v: Js): (r: Message)
    requires 1 <= code <= 9
    ensures Field(r, code) == v
    ensures forall k :: 1 <= k <= 9 && k != code ==> Field(r, k) == Field(m, k)
    ensures r.msgType == m.msgType && r.flags == m.flags && r.version == m.version
    ensures r.serial == m.serial && r.body == m.body
  {
    match code
    case 1 => m.(path := v)
    case 2 => m.(iface := v)
    case 3 => m.(member := v)
    case 4 => m.(errorName := v)
    case 5 => m.(replySerial := v)
    case 6 => m.(destination := v)
    case 7 => m.(sender := v)
    case 8 => m.(signature := v)
    case 9 => m.(unixFds := v)
  }

  /** The TYPE `wire` writes field `code` with: OBJECT_PATH, STRING, UINT32 or SIGNATURE. */
  const FieldTypes: string := "ossssusgu"

  /** `encodeField`: `(yv)` holding the code and a VARIANT of the value. */
  function EncodeField(code: nat, value: Js, t: char): (r: Result<Value>)
    ensures r.Ok? ==> Sig(r.value) == "(yv)" && r.value.Struct? && |r.value.elems| == 2
    ensures r.Ok? ==> r.value.elems[0] == Int('y', code, false)
  {
    var key :- NewFixed('y', JNum(code));
    var inner :- New([t], value);
    FieldEntry(key, inner);
    StructOf([key, VariantOf(inner)], Some("(yv)"))
  }

  /** `new STRUCT([key, variant], '(yv)')` pushes both into the `(yv)` shell. */
  lemma FieldEntry(key: Value, inner: Value)
    requires key.Int? && key.code == 'y'
    ensures StructOf([key, VariantOf(inner)], Some("(yv)")) ==
            Ok(Struct("(yv)", ["y", "v"], [key, VariantOf(inner)]))
  {
    Signature.ExplodeFieldEntry();
    assert Interior("(yv)") == "yv";
    var shell := Struct("(yv)", ["y", "v"], []);
    assert BySignature("(yv)") == Ok(shell);
    var es := [key, VariantOf(inner)];
    PushAllFills("(yv)", ["y", "v"], [], es);
    assert [] + es == es;
  }

  /** The header field entries `wire` pushes from `code` on: one per truthy field, in code
      order. */
  function EncodeFields(m: Message, code: nat): (r: Result<seq<Value>>)
    requires 1 <= code
    decreases 10 - code
  {
    if code > 9 then Ok([])
    else if !Truthy(Field(m, code)) then EncodeFields(m, code + 1)
    else
      var f :- EncodeField(code, Field(m, code), FieldTypes[code - 1]);
      var rest :- EncodeFields(m, code + 1);
      Ok([f] + rest)
  }

  /** The code of a header field entry. */
  function EntryCode(e: Value): int
  {
    if e.Struct? && |e.elems| > 0 && e.elems[0].Int? then e.elems[0].n else -1
  }

  /** Entries of signature `(yv)` with codes from `code` to 9, in strictly increasing order. */
  predicate Ordered(es: seq<Value>, code: nat)
  {
    && (forall i :: 0 <= i < |es| ==> Sig(es[i]) == "(yv)" && code <= EntryCode(es[i]) <= 9)
    && (forall i, j :: 0 <= i < j < |es| ==> EntryCode(es[i]) < EntryCode(es[j]))
  }

  /** Field `k` has an entry exactly when it is truthy, for every `k` from `code` to 9. */
  predicate Present(m: Message, es: seq<Value>, code: nat)
  {
    forall k :: 1 <= k && code <= k <= 9 ==>
      (Truthy(Field(m, k)) <==> exists i :: 0 <= i < |es| && EntryCode(es[i]) == k)
  }

  /** The header field entries come in strictly increasing code order, every entry has
      signature `(yv)`, and field `k` has an entry exactly when it is truthy. */
  lemma {:induction false} FieldsInOrder(m: Message, code: nat)
    requires 1 <= code && EncodeFields(m, code).Ok?
    ensures Ordered(EncodeFields(m, code).value, code)
    ensures Present(m, EncodeFields(m, code).value, code)
    decreases 10 - code
  {
    if code <= 9 {
      FieldsInOrder(m, code + 1);
      var rest := EncodeFields(m, code + 1).value;
      var es := EncodeFields(m, code).value;
      if Truthy(Field(m, code)) {
        var f := EncodeField(code, Field(m, code), FieldTypes[code - 1]).value;
        assert es == [f] + rest;
        FieldsCons(m, code, f, rest, es);
      } else {
        assert es == rest;
        FieldsSkip(m, code, es);
      }
    }
  }

  /** A falsy field has no entry. */
  lemma FieldsSkip(m: Message, code: nat, es: seq<Value>)
    requires 1 <= code <= 9 && !Truthy(Field(m, code))
    requires Ordered(es, code + 1) && Present(m, es, code + 1)
    ensures Ordered(es, code) && Present(m, es, code)
  {
  }

  /** A truthy field's entry in front of the later ones. */
  lemma FieldsCons(m: Message, code: nat, f: Value, rest: seq<Value>, all: seq<Value>)
    requires 1 <= code <= 9 && Sig(f) == "(yv)" && EntryCode(f) == code && Truthy(Field(m, code))
    requires Ordered(rest, code + 1) && Present(m, rest, code + 1) && all == [f] + rest
    ensures Ordered(all, code) && Present(m, all, code)
  {
    forall k | code <= k <= 9 && Truthy(Field(m, k))
      ensures exists i :: 0 <= i < |all| && EntryCode(all[i]) == k
    {
      if k == code {
        assert EntryCode(all[0]) == k;
      } else {
        var i :| 0 <= i < |rest| && EntryCode(rest[i]) == k;
        assert all[i + 1] == rest[i];
      }
    }
    forall k | code <= k <= 9 && (exists i :: 0 <= i < |all| && EntryCode(all[i]) == k)
      ensures Truthy(Field(m, k))
    {
      var i :| 0 <= i < |all| && EntryCode(all[i]) == k;
      if i > 0 {
        assert all[i] == rest[i - 1];
      }
    }
  }

  // ---------------------------------------------------------------------------------------
  // wire

  /** The size of the header and body buffers `wire` allocates. */
  const BufferSize: nat := 1024 * 1024

  /** The byte `'l'` that marks a little-endian message, and `'B'`, big-endian. */
  const Little: nat := 0x6c
  const Big: nat := 0x42

  const HeaderSig: string := "(yyyyuua(yv))"
  const HeaderSigs: seq<string> := ["y", "y", "y", "y", "u", "u", "a(yv)"]

  /** `new STRUCT(m.body)`: a STRUCT built from elements without a signature. */
  function BodyWrap(body: seq<Value>): (r: Value)
    ensures r.Struct? && r.elems == body
  {
    StructOf(body, None).value
  }

  /** `m.signature || bodyWrap && bodyWrapSig.slice(1, bodyWrapSig.length - 1)`. */
  function BodySignature(m: Message): (r: Js)
    ensures Truthy(m.signature) ==> r == m.signature
    ensures !Truthy(m.signature) && m.body.None? ==> !Truthy(r)
  {
    if Truthy(m.signature) then m.signature
    else if m.body.None? then JUndefined
    else
      var s := Sig(BodyWrap(m.body.value));
      JStr(s[1..|s| - 1])
  }

  /** The message whose fields `wire` writes: the sender is the connection's own name, and
      the signature is `BodySignature`. */
  function Outgoing(m: Message, myName: string): Message
  {
    m.(sender := JStr(myName), signature := BodySignature(m))
  }

  /** The header STRUCT after `wire`'s pushes: endianness, type, flags, version 1, body
      length, serial, and the field entries. */
  function Header(m: Message, t: nat, serial: nat, myName: string, bodyLength: nat): (r: Result<Value>)
    requires t < 256
    ensures r.Ok? ==> r.value.Struct? && Sig(r.value) == HeaderSig && |r.value.elems| == 7
  {
    var bl :- NewFixed('u', JNum(bodyLength));
    var sr :- NewFixed('u', JNum(serial));
    var fields :- EncodeFields(Outgoing(m, myName), 1);
    Ok(Struct(HeaderSig, HeaderSigs, HeaderElems(t, EncodeFlags(m.flags), bl, sr, fields)))
  }

  /** The seven header elements, in `wire`'s push order. */
  function HeaderElems(t: nat, flags: nat, bl: Value, sr: Value, fields: seq<Value>): seq<Value>
  {
    [Int('y', Little, false), Int('y', t, false), Int('y', flags, false), Int('y', 1, false),
     bl, sr, Array("(yv)", fields)]
  }

  /** What one of `wire`'s 1 MiB buffers yields for `v`: its little-endian encoding, which
      must fit in the buffer, with zero padding up to a multiple of `align`. */
  function Fresh(v: Value, align: nat): (r: Result<seq<byte>>)
    requires align == 1 || align == 8
  {
    var enc :- Marshalled(v, 0, true);
    if |enc| > BufferSize then Err("out of range")
    else Ok(enc + Zeros(Round(|enc|, align) - |enc|))
  }

  /** `wire(m, serial)`: the header, zero padding to a multiple of 8, then the body. */
  function Wired(m: Message, serial: nat, myName: string): (r: Result<seq<byte>>)
  {
    var t :- EncodeType(m.msgType);
    var body :- if m.body.Some? then Fresh(BodyWrap(m.body.value), 1) else Ok([]);
    Framed(m, t, serial, myName, body)
  }

  /** The header for a body already marshalled, then the body. */
  function Framed(m: Message, t: nat, serial: nat, myName: string, body: seq<byte>): (r: Result<seq<byte>>)
    requires t < 256
  {
    var header :- Header(m, t, serial, myName, |body|);
    var hdr :- Fresh(header, 8);
    Ok(hdr + body)
  }

  /** A method's outcome agrees with its specification: it succeeds exactly when the
      specification does, with the same value; the error messages may differ. */
  predicate Agrees<T(==)>(r: Result<T>, spec: Result<T>)
  {
    (r.Ok? <==> spec.Ok?) && (r.Ok? ==> r.value == spec.value)
  }

  /** `new STRUCT('(yyyyuua(yv))')` is the empty header shell. */
  lemma HeaderShell()
    ensures BySignature(HeaderSig) == Ok(Struct(HeaderSig, HeaderSigs, []))
  {
    var sig := HeaderSig;
    var inner := "yyyyuua(yv)";
    assert sig == "(" + inner + ")";
    assert sig[0] == '(' && sig[0] != 'a' && sig[|sig| - 1] == ')';
    forall k | 1 <= k < |sig| - 1
      ensures sig[k] != '\n' && sig[k] != '\r' && sig[k] != '\U{2028}' && sig[k] != '\U{2029}'
    {
      assert sig[k] in "yua(v)";
    }
    assert Bracketed(sig, '(', ')');
    Signature.ExplodeExampleHeader();
    InteriorOf(inner);
  }

  lemma InteriorOf(x: string)
    ensures Interior("(" + x + ")") == x
  {
  }

  /** Pushing the header elements into the shell fills it: every push matches its
      signature. */
  lemma ElemsFillShell(t: nat, flags: nat, bl: Value, sr: Value, fields: seq<Value>)
    requires bl.Int? && bl.code == 'u' && sr.Int? && sr.code == 'u'
    ensures PushAll(Struct(HeaderSig, HeaderSigs, []), HeaderElems(t, flags, bl, sr, fields)) ==
            Ok(Struct(HeaderSig, HeaderSigs, HeaderElems(t, flags, bl, sr, fields)))
  {
    var es := HeaderElems(t, flags, bl, sr, fields);
    assert forall k :: 0 <= k < 7 ==> Sig(es[k]) == HeaderSigs[0 + k];
    PushAllFills(HeaderSig, HeaderSigs, [], es);
    assert [] + es == es;
  }

  /** The header STRUCT `wire` builds is exactly what pushing its elements into
      `new STRUCT('(yyyyuua(yv))')` gives. */
  lemma HeaderPushes(m: Message, t: nat, serial: nat, myName: string, bodyLength: nat)
    requires t < 256 && Header(m, t, serial, myName, bodyLength).Ok?
    ensures BySignature(HeaderSig) == Ok(Struct(HeaderSig, HeaderSigs, []))
    ensures PushAll(Struct(HeaderSig, HeaderSigs, []), Header(m, t, serial, myName, bodyLength).value.elems) ==
            Header(m, t, serial, myName, bodyLength)
  {
    HeaderShell();
    var bl := NewFixed('u', JNum(bodyLength)).value;
    var sr := NewFixed('u', JNum(serial)).value;
    ElemsFillShell(t, EncodeFlags(m.flags), bl, sr, EncodeFields(Outgoing(m, myName), 1).value);
  }

  /** The first `n` bytes of a zero-filled buffer after writing `x` at its start. */
  lemma ZeroPrefix(s: seq<byte>, x: seq<byte>, n: nat)
    requires ZeroFrom(s, 0) && |x| <= n <= |s|
    ensures Splice(s, 0, x)[..n] == x + Zeros(n - |x|)
  {
    ZerosAreZero(n - |x|);
    SpliceAt(s, 0, x);
  }

  /** One of `wire`'s buffers: `Buffer.alloc(1024 * 1024)`, `v` marshalled little-endian at
      offset 0, and the written bytes sliced out, rounded up to a multiple of `align`. A write
      past the buffer's end throws. */
  method MarshalFresh(v: Value, align: nat) returns (r: Result<seq<byte>>)
    requires align == 1 || align == 8
    ensures Agrees(r, Fresh(v, align))
  {
    var buf := new byte[BufferSize](_ => 0);
    assert ZeroFrom(buf[..], 0);
    ghost var zeros := buf[..];
    var end := Marshal(v, buf, 0, true);
    if end.Err? {
      return Err(end.msg);
    }
    if end.value > BufferSize {
      return Err("out of range");
    }
    var len := Round(end.value, align);
    FreshWritten(v, align, zeros, buf[..], end.value);
    r := Ok(buf[..len]);
  }

  /** A fresh buffer with `v` marshalled at its start holds `Fresh(v, align)` in its first
      bytes. */
  lemma FreshWritten(v: Value, align: nat, zeros: seq<byte>, after: seq<byte>, e: nat)
    requires align == 1 || align == 8
    requires |zeros| == BufferSize && ZeroFrom(zeros, 0)
    requires Wrote(Marshalled(v, 0, true), Ok(e), zeros, after, 0) && e <= BufferSize
    ensures Round(e, align) <= |after| && Fresh(v, align) == Ok(after[..Round(e, align)])
  {
    PaddedPrefix(zeros, Marshalled(v, 0, true).value, after, align);
  }

  /** The bytes of a fresh buffer after `enc` is written at its start, up to the next
      multiple of `align`: `enc` and zero padding. */
  lemma PaddedPrefix(zeros: seq<byte>, enc: seq<byte>, after: seq<byte>, align: nat)
    requires align == 1 || align == 8
    requires |zeros| % 8 == 0 && ZeroFrom(zeros, 0)
    requires |enc| <= |zeros| && after == Splice(zeros, 0, enc)
    ensures Round(|enc|, align) <= |after|
    ensures after[..Round(|enc|, align)] == enc + Zeros(Round(|enc|, align) - |enc|)
  {
    var n := Round(|enc|, align);
    if align == 8 {
      RoundIsLeastMultiple(|enc|, 8, |zeros|);
    }
    ZeroPrefix(zeros, enc, n);
  }

  /** `wire(m, serial)`: the body STRUCT marshalled into one buffer, the header into another,
      and the header's bytes rounded up to 8 followed by the body's. */
  method Wire(m: Message, serial: nat, myName: string) returns (r: Result<seq<byte>>)
    ensures Agrees(r, Wired(m, serial, myName))
  {
    var t :- EncodeType(m.msgType);
    var body: seq<byte> := [];
    if m.body.Some? {
      body :- MarshalFresh(BodyWrap(m.body.value), 1);
    }
    r := WireHeader(m, t, serial, myName, body);
  }

  /** The header half of `wire`, after the body is marshalled. */
  method WireHeader(m: Message, t: nat, serial: nat, myName: string, body: seq<byte>) returns (r: Result<seq<byte>>)
    requires t < 256
    ensures Agrees(r, Framed(m, t, serial, myName, body))
  {
    var header :- Header(m, t, serial, myName, |body|);
    var hdr :- MarshalFresh(header, 8);
    r := Ok(hdr + body);
  }

  // ---------------------------------------------------------------------------------------
  // the fixed part of the header

  /** A BYTE is its value, at any offset. */
  lemma ByteBytes(n: nat, off: nat)
    requires n < 0x100
    ensures Marshalled(Int('y', n, false), off, true) == Ok([n as byte])
  {
    assert Round(off, 1) == off && Zeros(0) == [];
    assert LE(n, 1) == [(n % 256) as byte] + LE(n / 256, 0);
    assert Writable('y', n) && Width('y') == 1 && Size('y') == 1 && Pattern('y', n) == n;
    assert UIntBytes(n, 1, true) == [n as byte];
    assert FixedBytes('y', n, true) == Ok(UIntBytes(n, 1, true) + Zeros(0));
    assert MarshalledInt('y', n, false, off, true) == Ok(Zeros(0) + [n as byte]);
    assert Zeros(0) + [n as byte] == [n as byte];
  }

  /** A UINT32 at a 4-aligned offset is its four little-endian bytes. */
  lemma WordBytes(n: nat, off: nat)
    requires n < 0x1_0000_0000 && off % 4 == 0
    ensures Marshalled(Int('u', n, false), off, true) == Ok(LE(n, 4))
  {
    assert Round(off, 4) == off && Zeros(0) == [];
    assert FixedBytes('u', n, true) == Ok(UIntBytes(n, 4, true) + Zeros(0));
    assert UIntBytes(n, 4, true) + Zeros(0) == LE(n, 4);
    assert MarshalledInt('u', n, false, off, true) == Ok(Zeros(0) + LE(n, 4));
    assert Zeros(0) + LE(n, 4) == LE(n, 4);
  }

  /** The encoding of a list whose first element encodes to `e`. */
  lemma AllCons(v: Value, vs: seq<Value>, off: nat, e: seq<byte>)
    requires Marshalled(v, off, true) == Ok(e)
    ensures MarshalledAll([v] + vs, off, true) == Prefixed(e, MarshalledAll(vs, off + |e|, true))
  {
    var xs := [v] + vs;
    assert xs[0] == v;
    assert xs[1..] == vs;
    AllFirst(xs, off, e);
  }

  /** The encoding of a list is its first element's followed by the rest's. */
  lemma AllFirst(xs: seq<Value>, off: nat, e: seq<byte>)
    requires xs != [] && Marshalled(xs[0], off, true) == Ok(e)
    ensures MarshalledAll(xs, off, true) == Prefixed(e, MarshalledAll(xs[1..], off + |e|, true))
  {
    if MarshalledAll(xs[1..], off + |e|, true).Ok? {
    }
  }

  /** The encoding of a one-element list is the element's. */
  lemma AllSingle(v: Value, off: nat)
    ensures MarshalledAll([v], off, true) == Marshalled(v, off, true)
  {
    assert [v][1..] == [];
    if Marshalled(v, off, true).Ok? {
      assert Marshalled(v, off, true).value + [] == Marshalled(v, off, true).value;
    }
  }

  /** The field ARRAY at offset 12: its length word, then (16 being 8-aligned) the entries
      with no padding. */
  lemma FieldArrayBytes(fields: seq<Value>)
    requires MarshalledArray("(yv)", fields, 12, true).Ok?
    ensures MarshalledAll(fields, 16, true).Ok?
    ensures MarshalledArray("(yv)", fields, 12, true).value ==
      LE(|MarshalledAll(fields, 16, true).value|, 4) + MarshalledAll(fields, 16, true).value
  {
    assert Round(12, 4) == 12 && Round(16, 8) == 16;
    assert Zeros(0) == [];
  }

  /** The body length and serial words at offsets 4 and 8, then the field ARRAY. */
  lemma WordsBytes(b: nat, s: nat, fields: seq<Value>)
    requires b < 0x1_0000_0000 && s < 0x1_0000_0000
    ensures MarshalledAll([Int('u', b, false)] + ([Int('u', s, false)] + [Array("(yv)", fields)]), 4, true) ==
      Prefixed(LE(b, 4) + LE(s, 4), MarshalledArray("(yv)", fields, 12, true))
  {
    var arr := Array("(yv)", fields);
    WordBytes(b, 4);
    AllCons(Int('u', b, false), [Int('u', s, false)] + [arr], 4, LE(b, 4));
    WordBytes(s, 8);
    AllCons(Int('u', s, false), [arr], 8, LE(s, 4));
    AllSingle(arr, 12);
    PrefixedTwice(LE(b, 4), LE(s, 4), MarshalledArray("(yv)", fields, 12, true));
  }

  /** The header elements' encoding: twelve bytes of fixed fields, then the field ARRAY. */
  lemma HeaderElemsBytes(t: nat, flags: nat, b: nat, s: nat, fields: seq<Value>)
    requires t < 0x100 && flags < 0x100 && b < 0x1_0000_0000 && s < 0x1_0000_0000
    ensures MarshalledAll(HeaderElems(t, flags, Int('u', b, false), Int('u', s, false), fields), 0, true) ==
      Prefixed([Little as byte, t as byte, flags as byte, 1] + (LE(b, 4) + LE(s, 4)),
               MarshalledArray("(yv)", fields, 12, true))
  {
    var t5 := [Int('u', b, false)] + ([Int('u', s, false)] + [Array("(yv)", fields)]);
    var t4 := [Int('y', 1, false)] + t5;
    var t3 := [Int('y', flags, false)] + t4;
    var t2 := [Int('y', t, false)] + t3;
    assert HeaderElems(t, flags, Int('u', b, false), Int('u', s, false), fields) == [Int('y', Little, false)] + t2;
    ByteBytes(Little, 0);
    AllCons(Int('y', Little, false), t2, 0, [Little as byte]);
    ByteBytes(t, 1);
    AllCons(Int('y', t, false), t3, 1, [t as byte]);
    ByteBytes(flags, 2);
    AllCons(Int('y', flags, false), t4, 2, [flags as byte]);
    ByteBytes(1, 3);
    AllCons(Int('y', 1, false), t5, 3, [1]);
    WordsBytes(b, s, fields);
    var w := LE(b, 4) + LE(s, 4);
    var x := MarshalledArray("(yv)", fields, 12, true);
    PrefixedTwice([1], w, x);
    PrefixedTwice([flags as byte], [1] + w, x);
    PrefixedTwice([t as byte], [flags as byte] + ([1] + w), x);
    PrefixedTwice([Little as byte], [t as byte] + ([flags as byte] + ([1] + w)), x);
    Cat4(Little as byte, t as byte, flags as byte, 1, w);
  }

  lemma Cat4(a: byte, b: byte, c: byte, d: byte, w: seq<byte>)
    ensures [a] + ([b] + ([c] + ([d] + w))) == [a, b, c, d] + w
  {
  }

  /** The first 16 bytes of a marshalled header: `'l'`, the type, the flags, version 1, the
      body length, the serial, and the byte length of the header fields, which run from 16
      to the header's end. */
  lemma HeaderBytes(t: nat, flags: nat, b: nat, s: nat, fields: seq<Value>, enc: seq<byte>)
    requires t < 0x100 && flags < 0x100 && b < 0x1_0000_0000 && s < 0x1_0000_0000
    requires Marshalled(Struct(HeaderSig, HeaderSigs, HeaderElems(t, flags, Int('u', b, false), Int('u', s, false), fields)), 0, true) == Ok(enc)
    ensures |enc| >= 16 && FixedPart(enc[..16], t, flags, b, s, |enc| - 16)
  {
    var es := HeaderElems(t, flags, Int('u', b, false), Int('u', s, false), fields);
    assert Round(0, 8) == 0 && Zeros(0) == [];
    HeaderElemsBytes(t, flags, b, s, fields);
    var prefix := [Little as byte, t as byte, flags as byte, 1] + (LE(b, 4) + LE(s, 4));
    var x := MarshalledArray("(yv)", fields, 12, true);
    assert MarshalledAll(es, 0, true).Ok?;
    assert x.Ok?;
    FieldArrayBytes(fields);
    var body := MarshalledAll(fields, 16, true).value;
    var hdr := prefix + (LE(|body|, 4) + body);
    assert Marshalled(Struct(HeaderSig, HeaderSigs, es), 0, true).value == [] + hdr;
    assert [] + hdr == hdr && |hdr| - 16 == |body|;
    FixedLayout(t, flags, b, s, |body|, body);
  }

  // ---------------------------------------------------------------------------------------
  // frame lengths

  /** The header length `unwire` reads: 16 plus the fields length word at offset 12. */
  function HeaderLength(data: seq<byte>, le: bool): nat
    requires |data| >= 16
  {
    16 + ReadUInt(data, 12, 4, le)
  }

  /** The body length word at offset 4. */
  function BodyLength(data: seq<byte>, le: bool): nat
    requires |data| >= 16
  {
    ReadUInt(data, 4, 4, le)
  }

  /** `Math.ceil(headerLen / 8) * 8 + bodyLen`: the length of the frame at the start of
      `data`. */
  function FrameLength(data: seq<byte>, le: bool): nat
    requires |data| >= 16
  {
    Round(HeaderLength(data, le), 8) + BodyLength(data, le)
  }

  /** Four little-endian bytes read back as their value. */
  lemma ReadWord(buf: seq<byte>, p: nat, n: nat)
    requires n < 0x1_0000_0000 && p + 4 <= |buf| && buf[p..p + 4] == LE(n, 4)
    ensures ReadUInt(buf, p, 4, true) == n
  {
    HoldsIsSlice(buf, p, LE(n, 4));
    Pow256Values();
    LERoundTrip(buf, p, n, 4);
  }

  /** The header `wire` builds, as elements. */
  lemma HeaderShape(m: Message, t: nat, serial: nat, myName: string, bodyLength: nat)
    requires t < 256 && Header(m, t, serial, myName, bodyLength).Ok?
    ensures serial < 0x1_0000_0000 && bodyLength < 0x1_0000_0000
    ensures EncodeFields(Outgoing(m, myName), 1).Ok?
    ensures Header(m, t, serial, myName, bodyLength).value ==
      Struct(HeaderSig, HeaderSigs, HeaderElems(t, EncodeFlags(m.flags), Int('u', bodyLength, false),
                                                Int('u', serial, false), EncodeFields(Outgoing(m, myName), 1).value))
  {
  }

  /** The first 16 bytes of a header: the fixed fields and the length `f` of the fields that
      follow them. */
  predicate FixedPart(w: seq<byte>, t: nat, flags: nat, b: nat, s: nat, f: nat)
    requires |w| == 16 && t < 0x100 && flags < 0x100
  {
    && w[0] == Little as byte && w[1] == t as byte && w[2] == flags as byte && w[3] == 1
    && w[4..8] == LE(b, 4) && w[8..12] == LE(s, 4) && w[12..16] == LE(f, 4)
  }

  /** The fixed bytes and the three words, then the rest. */
  lemma FixedLayout(t: nat, flags: nat, b: nat, s: nat, f: nat, rest: seq<byte>)
    requires t < 0x100 && flags < 0x100
    ensures var h := [Little as byte, t as byte, flags as byte, 1] + (LE(b, 4) + LE(s, 4)) + (LE(f, 4) + rest);
      |h| >= 16 && FixedPart(h[..16], t, flags, b, s, f)
  {
    Layout16([Little as byte, t as byte, flags as byte, 1], LE(b, 4), LE(s, 4), LE(f, 4), rest);
  }

  /** Four runs of four bytes, then the rest: the first 16 bytes are the four runs. */
  lemma Layout16(a: seq<byte>, x: seq<byte>, y: seq<byte>, z: seq<byte>, rest: seq<byte>)
    requires |a| == 4 && |x| == 4 && |y| == 4 && |z| == 4
    ensures var h := a + (x + y) + (z + rest);
      && |h| >= 16 && h[..16][..4] == a
      && h[..16][4..8] == x && h[..16][8..12] == y && h[..16][12..16] == z
  {
    var h := a + (x + y) + (z + rest);
    assert h[..16] == a + x + y + z;
  }

  /** One whole little-endian frame as `unwire` measures it: `'l'`, the type code, the
      flags and version 1; the word at 8 is the serial; the frame length is the whole length,
      and the body comes last. */
  predicate IsFrame(out: seq<byte>, t: nat, flags: nat, serial: nat, body: seq<byte>)
  {
    && |out| >= 16 && out[0] == Little as byte && out[3] == 1
    && out[1] as nat == t && out[2] as nat == flags
    && ReadUInt(out, 8, 4, true) == serial
    && FrameLength(out, true) == |out|
    && out[Round(HeaderLength(out, true), 8)..] == body
  }

  /** A header whose first 16 bytes are the fixed fields, padded to 8, then the body: one
      frame. */
  lemma FrameOf(hdr: seq<byte>, body: seq<byte>, t: nat, flags: nat, serial: nat)
    requires t < 0x100 && flags < 0x100 && |body| < 0x1_0000_0000 && serial < 0x1_0000_0000
    requires 16 <= |hdr| <= BufferSize && FixedPart(hdr[..16], t, flags, |body|, serial, |hdr| - 16)
    ensures IsFrame(hdr + Zeros(Round(|hdr|, 8) - |hdr|) + body, t, flags, serial, body)
  {
    var padded := hdr + Zeros(Round(|hdr|, 8) - |hdr|);
    var out := padded + body;
    PrefixKept(hdr, Zeros(Round(|hdr|, 8) - |hdr|), 16);
    PrefixKept(padded, body, 16);
    FixedWords(out, t, flags, |body|, serial, |hdr| - 16);
    SuffixKept(padded, body);
    assert HeaderLength(out, true) == |hdr|;
  }

  lemma PrefixKept(a: seq<byte>, b: seq<byte>, n: nat)
    requires n <= |a|
    ensures (a + b)[..n] == a[..n]
  {
  }

  lemma SuffixKept(a: seq<byte>, b: seq<byte>)
    ensures (a + b)[|a|..] == b
  {
  }

  /** The bytes and words of a fixed part. */
  lemma FixedWords(out: seq<byte>, t: nat, flags: nat, b: nat, s: nat, f: nat)
    requires t < 0x100 && flags < 0x100 && b < 0x1_0000_0000 && s < 0x1_0000_0000 && f < 0x1_0000_0000
    requires |out| >= 16 && FixedPart(out[..16], t, flags, b, s, f)
    ensures out[0] == Little as byte && out[1] == t as byte && out[2] == flags as byte && out[3] == 1
    ensures ReadUInt(out, 4, 4, true) == b && ReadUInt(out, 8, 4, true) == s && ReadUInt(out, 12, 4, true) == f
  {
    var w := out[..16];
    assert out[0] == w[0] && out[1] == w[1] && out[2] == w[2] && out[3] == w[3];
    WordIn(out, 4, b);
    WordIn(out, 8, s);
    WordIn(out, 12, f);
  }

  /** A word of the first 16 bytes, read back. */
  lemma WordIn(out: seq<byte>, p: nat, n: nat)
    requires |out| >= 16 && p + 4 <= 16 && n < 0x1_0000_0000 && out[..16][p..p + 4] == LE(n, 4)
    ensures ReadUInt(out, p, 4, true) == n
  {
    assert out[p..p + 4] == out[..16][p..p + 4];
    ReadWord(out, p, n);
  }

  /** The header framed in front of a body: its marshalled bytes, which fit the buffer and
      begin with the fixed part, padding, then the body. */
  lemma FramedBytes(m: Message, t: nat, serial: nat, myName: string, body: seq<byte>) returns (enc: seq<byte>)
    requires t < 256 && Framed(m, t, serial, myName, body).Ok?
    ensures 16 <= |enc| <= BufferSize && |body| < 0x1_0000_0000 && serial < 0x1_0000_0000
    ensures FixedPart(enc[..16], t, EncodeFlags(m.flags), |body|, serial, |enc| - 16)
    ensures Framed(m, t, serial, myName, body).value == enc + Zeros(Round(|enc|, 8) - |enc|) + body
  {
    var header;
    header, enc := FramedParts(m, t, serial, myName, body);
    HeaderShape(m, t, serial, myName, |body|);
    HeaderBytes(t, EncodeFlags(m.flags), |body|, serial, EncodeFields(Outgoing(m, myName), 1).value, enc);
  }

  /** The parts a framed message is made of: the header value and its encoding. */
  lemma FramedParts(m: Message, t: nat, serial: nat, myName: string, body: seq<byte>)
    returns (header: Value, enc: seq<byte>)
    requires t < 256 && Framed(m, t, serial, myName, body).Ok?
    ensures Header(m, t, serial, myName, |body|) == Ok(header)
    ensures Marshalled(header, 0, true) == Ok(enc) && |enc| <= BufferSize
    ensures Framed(m, t, serial, myName, body).value == enc + Zeros(Round(|enc|, 8) - |enc|) + body
  {
    header := Header(m, t, serial, myName, |body|).value;
    enc := Marshalled(header, 0, true).value;
  }

  /** The header framed in front of a body is one whole frame. */
  lemma FramedFrame(m: Message, t: nat, serial: nat, myName: string, body: seq<byte>)
    requires t < 256 && Framed(m, t, serial, myName, body).Ok?
    ensures IsFrame(Framed(m, t, serial, myName, body).value, t, EncodeFlags(m.flags), serial, body)
  {
    var enc := FramedBytes(m, t, serial, myName, body);
    FrameOf(enc, body, t, EncodeFlags(m.flags), serial);
  }

  /** `wire`'s output is one whole frame as `unwire` measures it, with the message's type
      code, flags and serial, and its marshalled body last. */
  lemma WiredFrame(m: Message, serial: nat, myName: string)
    requires Wired(m, serial, myName).Ok?
    ensures IsFrame(Wired(m, serial, myName).value, EncodeType(m.msgType).value, EncodeFlags(m.flags), serial,
                    if m.body.Some? then Fresh(BodyWrap(m.body.value), 1).value else [])
  {
    var t := EncodeType(m.msgType).value;
    var body := if m.body.Some? then Fresh(BodyWrap(m.body.value), 1).value else [];
    FramedFrame(m, t, serial, myName, body);
  }
}
