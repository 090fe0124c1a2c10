/** The connection half of `dbus-driver.js`: the handshake line and its acceptance test,
    `send`/`invoke` with their serial counter and table of pending calls, the `unwire` loop
    over the received bytes, and `handleMessage`. Sockets are not modelled: what the driver
    writes is recorded in `sent`, and received bytes are a parameter of `Receive`. Callbacks
    and event listeners are not called; what they would receive is recorded as an `Event`. */
module Driver {
  import opened Wrappers
  import opened JsStrings
  import opened Octets
  import opened DBusTypes
  import opened Framing

  // ---------------------------------------------------------------------------------------
  // Handshake

  predicate IsLowerHex(c: char)
  {
    '0' <= c <= '9' || 'a' <= c <= 'f'
  }

  /** The test `/^OK\s[a-f0-9]{32}$/`. */
  predicate IsOkLine(s: string)
  {
    |s| == 35 && s[0] == 'O' && s[1] == 'K' && IsSpace(s[2]) && forall i :: 3 <= i < 35 ==> IsLowerHex(s[i])
  }

  /** The test the client applies to the bus's reply, after trimming it. */
  predicate AcceptsHandshake(reply: string)
  {
    IsOkLine(Trim(reply))
  }

  /** A line ending in CR LF trims to the text before it. */
  lemma TrimLine(t: string)
    requires t != [] && !IsSpace(t[0]) && !IsSpace(t[|t| - 1])
    ensures Trim(t + "\r\n") == t
  {
    var x := t + "\r\n";
    assert TrimStart(x) == x;
    assert x[..|x| - 1] == t + "\r";
    assert (t + "\r")[..|t|] == t;
    assert TrimEnd(t) == t;
    assert TrimEnd(t + "\r") == TrimEnd(t);
  }

  predicate IsGuid(guid: string)
  {
    |guid| == 32 && forall i :: 0 <= i < 32 ==> IsLowerHex(guid[i])
  }

  /** The bus's `OK <guid>` line is accepted for every 32-digit lower-case hex guid. */
  lemma HandshakeAccepted(guid: string)
    requires IsGuid(guid)
    ensures AcceptsHandshake("OK " + guid + "\r\n")
  {
    var ok := "OK " + guid;
    assert ok[|ok| - 1] == guid[31];
    TrimLine(ok);
    assert IsOkLine(ok) by {
      forall i | 3 <= i < 35
        ensures IsLowerHex(ok[i])
      {
        assert ok[i] == guid[i - 3];
      }
    }
    assert "OK " + guid + "\r\n" == ok + "\r\n";
  }

  /** The text decides: a guid one digit short, an upper-case digit, or a refusal is not
      accepted. */
  lemma HandshakeRejected(guid: string)
    requires IsGuid(guid)
    ensures !AcceptsHandshake("OK " + guid[..31] + "\r\n")
    ensures !AcceptsHandshake("OK " + guid[..31] + "A\r\n")
    ensures !AcceptsHandshake("REJECTED EXTERNAL\r\n")
  {
    var short := "OK " + guid[..31];
    assert short[|short| - 1] == guid[30];
    TrimLine(short);
    assert |short| == 34;
    assert "OK " + guid[..31] + "\r\n" == short + "\r\n";
    var upper := "OK " + guid[..31] + "A";
    TrimLine(upper);
    assert upper[34] == 'A' && !IsLowerHex(upper[34]);
    assert "OK " + guid[..31] + "A\r\n" == upper + "\r\n";
    TrimLine("REJECTED EXTERNAL");
    assert "REJECTED EXTERNAL\r\n" == "REJECTED EXTERNAL" + "\r\n";
  }

  predicate IsAsciiText(s: string)
  {
    forall i :: 0 <= i < |s| ==> s[i] as int < 128
  }

  /** `Buffer.from(s).toString('hex')` for ASCII text: two lower-case digits per
      character. */
  function Hex(s: string): (h: string)
    requires IsAsciiText(s)
    ensures |h| == 2 * |s|
    ensures forall i :: 0 <= i < |h| ==> IsLowerHex(h[i])
  {
    if s == [] then []
    else [HexChar(s[0] as int / 16), HexChar(s[0] as int % 16)] + Hex(s[1..])
  }

  /** The characters whose codes the digit pairs of `h` spell. */
  function Unhex(h: string): string
    requires |h| % 2 == 0 && forall i :: 0 <= i < |h| ==> IsHexDigit(h[i])
  {
    if h == [] then [] else [(16 * HexValue(h[0]) + HexValue(h[1])) as char] + Unhex(h[2..])
  }

  lemma {:induction false} HexRoundTrip(s: string)
    requires IsAsciiText(s)
    ensures Unhex(Hex(s)) == s
  {
    if s != [] {
      HexRoundTrip(s[1..]);
      assert Hex(s)[2..] == Hex(s[1..]);
    }
  }

  /** The first line the client writes: a NUL, `AUTH EXTERNAL`, the hex of the decimal
      text of the user id, CR LF. */
  function AuthLine(uid: nat): string
  {
    "\0AUTH EXTERNAL " + Hex(DecimalText(uid)) + "\r\n"
  }

  /** The auth line names the user id: between its fixed head and its CR LF is hex text that
      decodes to the id's decimal digits. */
  lemma AuthLineNamesUid(uid: nat)
    ensures var line := AuthLine(uid);
      && |line| == 17 + 2 * |DecimalText(uid)|
      && line[..15] == "\0AUTH EXTERNAL " && line[|line| - 2..] == "\r\n"
      && var hex := line[15..|line| - 2];
         (forall i :: 0 <= i < |hex| ==> IsLowerHex(hex[i]))
         && |hex| % 2 == 0 && Unhex(hex) == DecimalText(uid) && DecimalValue(DecimalText(uid)) == uid
  {
    var d := DecimalText(uid);
    var h := Hex(d);
    Parts3("\0AUTH EXTERNAL ", h, "\r\n");
    HexRoundTrip(d);
    DecimalRoundTrip(uid);
  }

  lemma Parts3(a: string, b: string, c: string)
    ensures var s := a + b + c;
      s[..|a|] == a && s[|a|..|s| - |c|] == b && s[|s| - |c|..] == c
  {
  }

  // ---------------------------------------------------------------------------------------
  // Reading a message

  /** `.value` of a TYPE object after `unmarshal`: a fixed type's number (undefined for
      INT64 and UINT64, which read nothing), a string-like type's text; containers have
      none. */
  function ValueOf(v: Value): Js
  {
    match v
    case Int(_, n, big) => if big then JBig(n) else JNum(n)
    case Text(_, s) => JStr(s)
    case _ => JUndefined
  }

  /** `.elems` of a container. */
  function ElemsOf(v: Value): seq<Value>
  {
    match v
    case Array(_, elems) => elems
    case Struct(_, _, elems) => elems
    case Variant(elems) => elems
    case _ => []
  }

  /** `header.elems[i].value`. */
  function Slot(header: Value, i: nat): Js
  {
    var es := ElemsOf(header);
    if i < |es| then ValueOf(es[i]) else JUndefined
  }

  /** `header.elems[6].elems`: the field entries. */
  function Entries(header: Value): seq<Value>
  {
    var es := ElemsOf(header);
    if |es| > 6 then ElemsOf(es[6]) else []
  }

  /** A header read with `(yyyyuua(yv))` is a STRUCT of seven elements, so `Slot` and
      `Entries` always find the element they look for. */
  lemma HeaderDecoded(buf: seq<byte>, le: bool)
    requires Unmarshalled(HeaderSig, buf, 0, le).Ok?
    ensures var v := Unmarshalled(HeaderSig, buf, 0, le).value.v;
      v.Struct? && v.sig == HeaderSig && v.esigs == HeaderSigs && |v.elems| == 7
  {
    StructDispatch(HeaderSig, buf, 0, le);
    HeaderShell();
  }

  /** `yv.elems[0].value` of a header field entry: its code. */
  function EntryKey(yv: Value): Js
  {
    var es := ElemsOf(yv);
    if es != [] then ValueOf(es[0]) else JUndefined
  }

  /** `yv.elems[1].elems[1].value` of a header field entry: the value inside its VARIANT. */
  function EntryValue(yv: Value): Js
  {
    var es := ElemsOf(yv);
    if |es| < 2 then JUndefined
    else
      var inner := ElemsOf(es[1]);
      if |inner| < 2 then JUndefined else ValueOf(inner[1])
  }

  /** The `forEach` over the header field entries: an entry whose code is 1 to 9 sets that
      field, any other entry is ignored. */
  function ApplyFields(m: Message, es: seq<Value>): Message
    decreases |es|
  {
    if es == [] then m
    else
      var y := EntryKey(es[0]);
      var next := if y.JNum? && 0 < y.n < 10 then WithField(m, y.n, EntryValue(es[0])) else m;
      ApplyFields(next, es[1..])
  }

  /** The value of the last entry with code `k`, if there is one. */
  function LastValue(es: seq<Value>, k: nat): Option<Js>
  {
    if es == [] then None
    else
      var later := LastValue(es[1..], k);
      if later.Some? then later
      else if EntryKey(es[0]) == JNum(k) then Some(EntryValue(es[0]))
      else None
  }

  /** Each header field read is the value of the last entry with its code, and the fields
      without an entry keep their value; nothing but the header fields changes. */
  lemma {:induction false} FieldsApplied(m: Message, es: seq<Value>, k: nat)
    requires 1 <= k <= 9
    ensures Field(ApplyFields(m, es), k) == if LastValue(es, k).Some? then LastValue(es, k).value else Field(m, k)
    ensures var r := ApplyFields(m, es);
      r.msgType == m.msgType && r.flags == m.flags && r.version == m.version && r.serial == m.serial
      && r.body == m.body
    decreases |es|
  {
    if es != [] {
      var y := EntryKey(es[0]);
      var next := if y.JNum? && 0 < y.n < 10 then WithField(m, y.n, EntryValue(es[0])) else m;
      FieldsApplied(next, es[1..], k);
    }
  }

  /** The text a template string gives a field value (`${m.signature}`). */
  function JsText(j: Js): string
  {
    match j
    case JStr(s) => s
    case JNum(n) => if n < 0 then "-" + DecimalText(-n) else DecimalText(n)
    case JBig(n) => if n < 0 then "-" + DecimalText(-n) else DecimalText(n)
    case JBool(b) => if b then "true" else "false"
    case JUndefined => "undefined"
    case _ => "[object Object]"
  }

  /** The message with no header field set yet. */
  function Bare(t: string, flags: Flags, version: Js, serial: Js): Message
  {
    Message(t, Some(flags), version, serial, JUndefined, JUndefined, JUndefined, JUndefined, JUndefined,
            JUndefined, JUndefined, JUndefined, JUndefined, None)
  }

  /** The message `unwire` reads from one frame `total`, whose header is `headerLen` bytes
      long and whose body length word is `bodyLen`, or the error it throws. */
  function ParseMessage(total: seq<byte>, headerLen: nat, bodyLen: nat, le: bool): (r: Result<Message>)
    requires headerLen <= |total|
  {
    var hd :- Unmarshalled(HeaderSig, total[..headerLen], 0, le);
    if hd.end != headerLen then Err("offset mismatch when unmarshalling header")
    else if Slot(hd.v, 4) != JNum(bodyLen) then Err("body length mismatch when unmarshalling header")
    else
      var t :- DecodeType(Slot(hd.v, 1));
      var m0 := Bare(t, DecodeFlags(Slot(hd.v, 2)), Slot(hd.v, 3), Slot(hd.v, 5));
      var m := ApplyFields(m0, Entries(hd.v));
      if Truthy(m.signature) then
        if bodyLen == 0 then Err("zero body length and non-empty signature")
        else
          var b :- Unmarshalled("(" + JsText(m.signature) + ")", total, Round(headerLen, 8), le);
          if b.end != |total| then Err("offset mismatch when unmarshalling body")
          else Ok(m.(body := Some(ElemsOf(b.v))))
      else if bodyLen != 0 then Err("non-zero body length and empty signature")
      else Ok(m)
  }

  // ---------------------------------------------------------------------------------------
  // Frames

  /** The lengths `unwire` reads at the start of its buffer: the header without padding, the
      body, the whole frame, and the byte order. */
  datatype Frame = Frame(headerLen: nat, bodyLen: nat, totalLen: nat, le: bool)

  /** The head of `unwire`'s loop: wait (`None`) until 16 bytes are there, throw on a first
      byte other than `'l'` or `'B'`, wait until the whole frame is there, then the frame. */
  function NextFrame(data: seq<byte>): (r: Result<Option<Frame>>)
    ensures r.Ok? && r.value.Some? ==>
      16 <= r.value.value.headerLen <= r.value.value.totalLen <= |data|
  {
    if |data| < 16 then Ok(None)
    else if data[0] as nat != Little && data[0] as nat != Big then Err("bad endianness")
    else
      var le := data[0] as nat == Little;
      if |data| < FrameLength(data, le) then Ok(None)
      else Ok(Some(Frame(HeaderLength(data, le), BodyLength(data, le), FrameLength(data, le), le)))
  }

  /** The three length words of a frame are read from its first 16 bytes only. */
  lemma LengthsLocal(a: seq<byte>, b: seq<byte>, le: bool)
    requires |a| >= 16 && |b| >= 16 && a[..16] == b[..16]
    ensures HeaderLength(a, le) == HeaderLength(b, le) && BodyLength(a, le) == BodyLength(b, le)
    ensures FrameLength(a, le) == FrameLength(b, le)
  {
    assert forall i :: 0 <= i < 16 ==> a[i] == a[..16][i] == b[..16][i] == b[i];
    ReadUIntLocal(a, b, 12, 4, le);
    ReadUIntLocal(a, b, 4, 4, le);
  }

  /** What `wire` writes, followed by anything, is measured as one frame of exactly its
      length: `unwire` slices it off whole and keeps what follows. */
  lemma WiredIsNextFrame(m: Message, serial: nat, myName: string, rest: seq<byte>)
    requires Wired(m, serial, myName).Ok?
    ensures var w := Wired(m, serial, myName).value;
      |w| >= 16 && NextFrame(w + rest) == Ok(Some(Frame(HeaderLength(w, true), BodyLength(w, true), |w|, true)))
  {
    var w := Wired(m, serial, myName).value;
    WiredFrame(m, serial, myName);
    var d := w + rest;
    assert d[..16] == w[..16];
    LengthsLocal(d, w, true);
  }

  /** Any proper prefix of what `wire` writes is waited on. */
  lemma WiredPrefixWaits(m: Message, serial: nat, myName: string, k: nat)
    requires Wired(m, serial, myName).Ok? && k < |Wired(m, serial, myName).value|
    ensures NextFrame(Wired(m, serial, myName).value[..k]) == Ok(None)
  {
    var w := Wired(m, serial, myName).value;
    WiredFrame(m, serial, myName);
    if k >= 16 {
      var d := w[..k];
      assert d[..16] == w[..16];
      LengthsLocal(d, w, true);
    }
  }

  // ---------------------------------------------------------------------------------------
  // Handling a message

  /** What handling a message hands to the rest of the program: an `invocation` or
      `signal` event, or a pending callback called with the reply body or with an error
      (its message, `code` and `name`). Callbacks are named by number. */
  datatype Event =
    | Invocation(m: Message)
    | Signalled(m: Message)
    | Returned(callback: nat, body: Option<seq<Value>>)
    | Failed(callback: nat, message: string, code: string, name: Js)

  /** The part of the connection that handling messages changes. */
  datatype Conn = Conn(callMap: map<nat, nat>, myName: string, events: seq<Event>)

  /** `callMap.get(m.replySerial)`: only a number equal to a pending serial finds it. */
  function Pending(callMap: map<nat, nat>, replySerial: Js): Option<nat>
  {
    if replySerial.JNum? && replySerial.n >= 0 && replySerial.n in callMap then Some(replySerial.n) else None
  }

  /** `instanceof STRING`: STRING and its subclass OBJECT_PATH, not SIGNATURE. */
  predicate IsString(v: Value)
  {
    v.Text? && (v.tcode == 's' || v.tcode == 'o')
  }

  /** The message of the error an ERROR reply gives its callback. */
  function ErrorMessage(body: Option<seq<Value>>): string
  {
    if body.Some? && body.value != [] && IsString(body.value[0]) then body.value[0].s else "dbus error"
  }

  /** The bus's NameAcquired signal carrying a non-empty name. */
  predicate IsNameAcquired(m: Message)
  {
    && m.path == JStr("/org/freedesktop/DBus") && m.iface == JStr("org.freedesktop.DBus")
    && m.sender == JStr("org.freedesktop.DBus") && m.member == JStr("NameAcquired")
    && m.body.Some? && m.body.value != [] && IsString(m.body.value[0]) && m.body.value[0].s != []
  }

  /** `handleMessage`. */
  function Handle(c: Conn, m: Message): Conn
  {
    if m.msgType == "METHOD_CALL" then c.(events := c.events + [Invocation(m)])
    else if m.msgType == "METHOD_RETURN" || m.msgType == "ERROR" then
      var key := Pending(c.callMap, m.replySerial);
      if key.None? then c
      else
        var cb := c.callMap[key.value];
        var ev := if m.msgType == "METHOD_RETURN" then Returned(cb, m.body)
                  else Failed(cb, ErrorMessage(m.body), "EDBUS", m.errorName);
        c.(callMap := c.callMap - {key.value}, events := c.events + [ev])
    else if m.msgType == "SIGNAL" then
      if IsNameAcquired(m) then c.(myName := m.body.value[0].s) else c.(events := c.events + [Signalled(m)])
    else c
  }

  predicate IsReply(m: Message)
  {
    m.msgType == "METHOD_RETURN" || m.msgType == "ERROR"
  }

  /** A reply to a pending call removes the entry and calls its callback once: with the body
      for a METHOD_RETURN; for an ERROR with code EDBUS, the error name, and the first body
      argument as message when it is a STRING, `dbus error` otherwise. */
  lemma ReplyResolves(c: Conn, m: Message, s: nat)
    requires IsReply(m) && m.replySerial == JNum(s) && s in c.callMap
    ensures var r := Handle(c, m);
      && r.callMap == c.callMap - {s} && r.myName == c.myName && |r.events| == |c.events| + 1
      && r.events[..|c.events|] == c.events
      && var ev := r.events[|c.events|];
         && ev.callback == c.callMap[s]
         && (m.msgType == "METHOD_RETURN" ==> ev == Returned(c.callMap[s], m.body))
         && (m.msgType == "ERROR" ==> ev.Failed? && ev.code == "EDBUS" && ev.name == m.errorName)
         && (m.msgType == "ERROR" && m.body.Some? && m.body.value != [] && IsString(m.body.value[0]) ==>
               ev.message == m.body.value[0].s)
         && (m.msgType == "ERROR" && (m.body.None? || m.body.value == [] || !IsString(m.body.value[0])) ==>
               ev.message == "dbus error")
  {
    var r := Handle(c, m);
    assert r.events[..|c.events|] == c.events;
  }

  /** A second reply with the same serial finds nothing and changes nothing: a callback is
      called at most once. */
  lemma ReplyOnce(c: Conn, m: Message)
    requires IsReply(m)
    ensures Handle(Handle(c, m), m) == Handle(c, m)
  {
  }

  /** A reply whose serial is not pending is ignored. */
  lemma UnknownReplyIgnored(c: Conn, m: Message)
    requires IsReply(m) && Pending(c.callMap, m.replySerial).None?
    ensures Handle(c, m) == c
  {
  }

  /** The bus's NameAcquired signal renames the connection instead of being emitted; every
      other signal is emitted unchanged. */
  lemma SignalsHandled(c: Conn, m: Message)
    requires m.msgType == "SIGNAL"
    ensures IsNameAcquired(m) ==> Handle(c, m) == c.(myName := m.body.value[0].s) && Handle(c, m).myName != []
    ensures !IsNameAcquired(m) ==> Handle(c, m) == c.(events := c.events + [Signalled(m)])
  {
  }

  /** Handling a message adds at most one event after the earlier ones, and only removes
      pending calls. */
  lemma HandleGrows(c: Conn, m: Message)
    ensures var r := Handle(c, m);
      && |c.events| <= |r.events| <= |c.events| + 1 && r.events[..|c.events|] == c.events
      && r.callMap.Keys <= c.callMap.Keys
      && (forall k :: k in r.callMap ==> r.callMap[k] == c.callMap[k])
  {
    var r := Handle(c, m);
    assert r.events[..|c.events|] == c.events;
  }

  // ---------------------------------------------------------------------------------------
  // unwire

  /** Where `unwire` stops: the bytes left in `this.data`, the connection, and the error it
      throws, if any. */
  datatype Outcome = Outcome(data: seq<byte>, conn: Conn, error: Option<string>)

  /** `unwire`: frames are sliced off and handled one at a time until too few bytes remain
      for the next one; an error is thrown after its frame is sliced off. */
  function Unwired(data: seq<byte>, c: Conn): Outcome
    decreases |data|
  {
    match NextFrame(data)
    case Err(e) => Outcome(data, c, Some(e))
    case Ok(None) => Outcome(data, c, None)
    case Ok(Some(f)) =>
      var rest := data[f.totalLen..];
      match ParseMessage(data[..f.totalLen], f.headerLen, f.bodyLen, f.le)
      case Err(e) => Outcome(rest, c, Some(e))
      case Ok(m) => Unwired(rest, Handle(c, m))
  }

  /** What `unwire` leaves is a suffix of its input; unless it threw, it is waiting for
      more bytes; earlier events stay in place and pending calls are only removed. */
  lemma {:induction false} UnwiredRemainder(data: seq<byte>, c: Conn)
    ensures var r := Unwired(data, c);
      && |r.data| <= |data| && r.data == data[|data| - |r.data|..]
      && (r.error.None? ==> NextFrame(r.data) == Ok(None))
      && |c.events| <= |r.conn.events| && r.conn.events[..|c.events|] == c.events
      && r.conn.callMap.Keys <= c.callMap.Keys
    decreases |data|
  {
    var next := NextFrame(data);
    if next.Ok? && next.value.Some? {
      var f := next.value.value;
      var rest := data[f.totalLen..];
      var pm := ParseMessage(data[..f.totalLen], f.headerLen, f.bodyLen, f.le);
      if pm.Ok? {
        var c1 := Handle(c, pm.value);
        HandleGrows(c, pm.value);
        UnwiredRemainder(rest, c1);
        var r := Unwired(rest, c1);
        assert r.conn.events[..|c.events|] == r.conn.events[..|c1.events|][..|c.events|];
      }
    }
  }

  /** A frame `wire` wrote, at the head of the received bytes, is the one `unwire` parses
      next, and what follows it is kept for the next turn. */
  lemma UnwireTakesWiredFrame(m: Message, serial: nat, myName: string, rest: seq<byte>, c: Conn)
    requires Wired(m, serial, myName).Ok?
    ensures var w := Wired(m, serial, myName).value;
      |w| >= 16 && HeaderLength(w, true) <= |w| &&
      var parsed := ParseMessage(w, HeaderLength(w, true), BodyLength(w, true), true);
      Unwired(w + rest, c) ==
        if parsed.Err? then Outcome(rest, c, Some(parsed.msg)) else Unwired(rest, Handle(c, parsed.value))
  {
    var w := Wired(m, serial, myName).value;
    WiredIsNextFrame(m, serial, myName, rest);
    var data := w + rest;
    UnwiredStep(data, c, Frame(HeaderLength(w, true), BodyLength(w, true), |w|, true));
    assert data[..|w|] == w && data[|w|..] == rest;
  }

  /** One turn of `unwire` over a whole frame. */
  lemma UnwiredStep(data: seq<byte>, c: Conn, f: Frame)
    requires NextFrame(data) == Ok(Some(f))
    ensures var parsed := ParseMessage(data[..f.totalLen], f.headerLen, f.bodyLen, f.le);
      Unwired(data, c) ==
        if parsed.Err? then Outcome(data[f.totalLen..], c, Some(parsed.msg))
        else Unwired(data[f.totalLen..], Handle(c, parsed.value))
  {
  }

  // ---------------------------------------------------------------------------------------
  // The driver object

  class Connection {
    /** The next serial `send` uses. */
    var serial: nat
    /** Pending calls: serial of the call to the callback for its reply. */
    var callMap: map<nat, nat>
    var myName: string
    /** Received bytes not yet made into messages. */
    var data: seq<byte>
    /** The frames written to the socket, oldest first. */
    var sent: seq<seq<byte>>
    var events: seq<Event>

    /** Every pending call has a serial already used. */
    predicate Valid()
      reads this
    {
      forall k :: k in callMap ==> k < serial
    }

    function State(): Conn
      reads this
    {
      Conn(callMap, myName, events)
    }

    constructor ()
      ensures Valid() && serial == 1 && callMap == map[] && myName == "" && data == []
      ensures sent == [] && events == []
    {
      serial := 1;
      callMap := map[];
      myName := "";
      data := [];
      sent := [];
      events := [];
    }

    /** `send`: takes the next serial (`serial++`, also when `wire` throws) and writes the
        wired message. */
    method Send(m: Message) returns (r: Result<nat>)
      requires Valid()
      modifies this
      ensures Valid() && serial == old(serial) + 1
      ensures r.Ok? <==> Wired(m, old(serial), myName).Ok?
      ensures r.Ok? ==> r.value == old(serial) && sent == old(sent) + [Wired(m, old(serial), myName).value]
      ensures r.Err? ==> sent == old(sent)
      ensures callMap == old(callMap) && myName == old(myName) && data == old(data) && events == old(events)
    {
      var s := serial;
      serial := serial + 1;
      var w := Wire(m, s, myName);
      if w.Err? {
        return Err(w.msg);
      }
      sent := sent + [w.value];
      r := Ok(s);
    }

    /** `invoke`: sends the message as a METHOD_CALL and, once it is written, records the
        callback under its serial, which no pending call has. */
    method Invoke(m: Message, callback: nat) returns (r: Result<()>)
      requires Valid()
      modifies this
      ensures Valid() && serial == old(serial) + 1 && old(serial) !in old(callMap)
      ensures r.Ok? <==> Wired(m.(msgType := "METHOD_CALL"), old(serial), myName).Ok?
      ensures callMap == if r.Ok? then old(callMap)[old(serial) := callback] else old(callMap)
      ensures r.Ok? ==> sent == old(sent) + [Wired(m.(msgType := "METHOD_CALL"), old(serial), myName).value]
      ensures r.Err? ==> sent == old(sent)
      ensures myName == old(myName) && data == old(data) && events == old(events)
    {
      var s :- Send(m.(msgType := "METHOD_CALL"));
      callMap := callMap[s := callback];
      r := Ok(());
    }

    /** `reply`, `error` and `signal`: `send` with the type set. */
    method SendAs(m: Message, t: string) returns (r: Result<()>)
      requires Valid() && t in {"METHOD_RETURN", "ERROR", "SIGNAL"}
      modifies this
      ensures Valid() && serial == old(serial) + 1
      ensures r.Ok? <==> Wired(m.(msgType := t), old(serial), myName).Ok?
      ensures r.Ok? ==> sent == old(sent) + [Wired(m.(msgType := t), old(serial), myName).value]
      ensures r.Err? ==> sent == old(sent)
      ensures callMap == old(callMap) && myName == old(myName) && data == old(data) && events == old(events)
    {
      var s :- Send(m.(msgType := t));
      r := Ok(());
    }

    /** `handleMessage`. */
    method HandleMessage(m: Message)
      requires Valid()
      modifies this
      ensures Valid() && State() == Handle(old(State()), m)
      ensures serial == old(serial) && data == old(data) && sent == old(sent)
    {
      if m.msgType == "METHOD_CALL" {
        events := events + [Invocation(m)];
      } else if m.msgType == "METHOD_RETURN" || m.msgType == "ERROR" {
        var key := Pending(callMap, m.replySerial);
        if key.Some? {
          var cb := callMap[key.value];
          callMap := callMap - {key.value};
          if m.msgType == "METHOD_RETURN" {
            events := events + [Returned(cb, m.body)];
          } else {
            events := events + [Failed(cb, ErrorMessage(m.body), "EDBUS", m.errorName)];
          }
        }
      } else if m.msgType == "SIGNAL" {
        if IsNameAcquired(m) {
          myName := m.body.value[0].s;
        } else {
          events := events + [Signalled(m)];
        }
      }
    }

    /** `unwire`: the `while (true)` loop over `this.data`. */
    method Unwire() returns (error: Option<string>)
      requires Valid()
      modifies this
      ensures Valid() && serial == old(serial) && sent == old(sent)
      ensures Outcome(data, State(), error) == Unwired(old(data), old(State()))
    {
      while true
        invariant Valid() && serial == old(serial) && sent == old(sent)
        invariant Unwired(data, State()) == Unwired(old(data), old(State()))
        decreases |data|
      {
        var next := NextFrame(data);
        if next.Err? {
          return Some(next.msg);
        }
        if next.value.None? {
          return None;
        }
        var f := next.value.value;
        var total := data[..f.totalLen];
        data := data[f.totalLen..];
        var m := ParseMessage(total, f.headerLen, f.bodyLen, f.le);
        if m.Err? {
          return Some(m.msg);
        }
        HandleMessage(m.value);
      }
    }

    /** A socket `data` event after the handshake: the bytes are appended and `unwire`
        runs. */
    method Receive(bytes: seq<byte>) returns (error: Option<string>)
      requires Valid()
      modifies this
      ensures Valid() && serial == old(serial) && sent == old(sent)
      ensures Outcome(data, State(), error) == Unwired(old(data) + bytes, old(State()))
    {
      data := data + bytes;
      error := Unwire();
    }
  }
}
