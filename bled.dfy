/** The serial frames exchanged with the Bluetooth companion chip (src/services/Bled.js).
    A command frame is `[0x00, length, checksum, command, payload...]`, where the checksum
    is the sum of the bytes from the command on, modulo 256. */
module Bled {
  import opened Wrappers
  import opened Octets

  const CommandPing: byte := 0x30
  const CommandVersion: byte := 0x31
  const CommandStationId: byte := 0x32
  const CommandStationStatus: byte := 0x33
  const CommandBindingProgress: byte := 0x34

  /** Sum of the bytes, accumulated from the front as the source's `forEach` does. */
  function Sum(s: seq<byte>): nat
  {
    if s == [] then 0 else Sum(s[..|s| - 1]) + s[|s| - 1] as nat
  }

  lemma SumAppend(s: seq<byte>, b: byte)
    ensures Sum(s + [b]) == Sum(s) + b as nat
  {
    assert (s + [b])[..|s|] == s;
  }

  /** JavaScript's `%` by 256: the remainder takes the sign of the dividend. */
  function JsRem256(a: int): (r: int)
    ensures (r == 0) == (a % 256 == 0)
    ensures -256 < r < 256
  {
    if a >= 0 then a % 256 else -((-a) % 256)
  }

  /** What `validate` accepts: at least two bytes, byte 1 equal to the frame length, and,
      when byte 2 exists, byte 2 equal to the sum of the bytes after it modulo 256.
      A two-byte frame `[x, 2]` is accepted: `-data[2]` is `NaN` there, and `!(NaN % 256)`
      is true. */
  predicate ValidFrame(data: seq<byte>)
  {
    |data| >= 2 && data[1] as int == |data| &&
    (|data| >= 3 ==> data[2] as int == Sum(data[3..]) % 256)
  }

  /** `checksum`: the byte sum modulo 256. */
  method Checksum(arr: seq<byte>) returns (ck: byte)
    ensures ck as int == Sum(arr) % 256
  {
    var sum := 0;
    var i := 0;
    while i < |arr|
      invariant 0 <= i <= |arr|
      invariant sum == Sum(arr[..i])
    {
      assert arr[..i + 1] == arr[..i] + [arr[i]];
      SumAppend(arr[..i], arr[i]);
      sum := sum + arr[i] as int;
      i := i + 1;
    }
    assert arr[..i] == arr;
    ck := (sum % 256) as byte;
  }

  /** `validate`: starts the sum at minus byte 2, adds every byte after it and tests the
      JavaScript remainder for zero. */
  method Validate(data: seq<byte>) returns (ok: bool)
    ensures ok == ValidFrame(data)
  {
    if |data| == 0 {
      return false;
    }
    if |data| < 2 || data[1] as int != |data| {
      return false;
    }
    if |data| == 2 {
      return true;
    }
    var sum := -(data[2] as int);
    var i := 3;
    while i < |data|
      invariant 3 <= i <= |data|
      invariant sum == Sum(data[3..i]) - data[2] as int
    {
      assert data[3..i + 1] == data[3..i] + [data[i]];
      SumAppend(data[3..i], data[i]);
      sum := sum + data[i] as int;
      i := i + 1;
    }
    assert data[3..i] == data[3..];
    ok := JsRem256(sum) == 0;
    ModZeroIffEqual(Sum(data[3..]), data[2]);
  }

  lemma ModZeroIffEqual(s: nat, c: byte)
    ensures ((s - c as int) % 256 == 0) == (c as int == s % 256)
  {
    var q := s / 256;
    assert s == 256 * q + s % 256;
    if c as int == s % 256 {
      assert s - c as int == 256 * q;
    }
    if (s - c as int) % 256 == 0 {
      var k := (s - c as int) / 256;
      assert s - c as int == 256 * k;
      assert s == 256 * k + c as int;
    }
  }

  /** A header `[0x00, len, ck, cmd]` followed by `payload`, with `ck` the checksum of
      `[cmd] + payload`, is a valid frame exactly when `len` is the frame length. */
  lemma HeaderChecksumValid(len: byte, ck: byte, cmd: byte, payload: seq<byte>)
    requires ck as int == Sum([cmd] + payload) % 256
    ensures ValidFrame([0x00, len, ck, cmd] + payload) == (len as int == 4 + |payload|)
  {
    var f := [0x00, len, ck, cmd] + payload;
    HeaderBytes(f, len, ck, cmd, payload);
  }

  /** The length, bytes 1 and 2, and the bytes from 3 on of a header followed by a payload. */
  lemma HeaderBytes(f: seq<byte>, len: byte, ck: byte, cmd: byte, payload: seq<byte>)
    requires f == [0x00, len, ck, cmd] + payload
    ensures |f| == 4 + |payload| && f[1] == len && f[2] == ck && f[3..] == [cmd] + payload
  {
  }

  /** Allocates the frame buffer, copies the payload after the 4-byte header, writes the
      zero byte, the length byte and the command, then the checksum of everything from the
      command on: the sequence the three builders of the source share. */
  method BuildFrame(len: byte, cmd: byte, payload: seq<byte>) returns (buf: array<byte>)
    ensures fresh(buf) && buf.Length == 4 + |payload|
    ensures buf[..] == [0x00, len, buf[2], cmd] + payload
    ensures buf[2] as int == Sum([cmd] + payload) % 256
  {
    buf := new byte[4 + |payload|](_ => 0);
    var i := 0;
    while i < |payload|
      invariant 0 <= i <= |payload|
      invariant forall k :: 0 <= k < i ==> buf[4 + k] == payload[k]
    {
      buf[4 + i] := payload[i];
      i := i + 1;
    }
    buf[0] := 0x00;
    buf[1] := len;
    buf[3] := cmd;
    assert buf[3..] == [cmd] + payload;
    var ck := Checksum(buf[3..]);
    buf[2] := ck;
    assert buf[..] == [0x00, len, ck, cmd] + payload;
  }

  /** `ping`: `[0x00, 0x08, ck, 0x30]` followed by the session bytes. The length byte is the
      constant 8, so the frame validates exactly when the session has four bytes, which the
      source's session generator guarantees. */
  method Ping(session: seq<byte>) returns (buf: array<byte>)
    ensures buf.Length == 4 + |session|
    ensures buf[..] == [0x00, 0x08, buf[2], CommandPing] + session
    ensures ValidFrame(buf[..]) == (|session| == 4)
  {
    buf := BuildFrame(0x08, CommandPing, session);
    HeaderChecksumValid(0x08, buf[2], CommandPing, session);
  }

  /** `getVersion`: the constant frame `[0x00, 0x04, 0x31, 0x31]`. */
  function VersionFrame(): (f: seq<byte>)
    ensures ValidFrame(f) && |f| == 4 && f[3] == CommandVersion
  {
    [0x00, 0x04, CommandVersion, CommandVersion]
  }

  /** The argument of `setStationId`: a Buffer, or any other JavaScript value. */
  datatype IdArg = Buffer(bytes: seq<byte>) | NotBuffer

  /** `setStationId`: fails with "Id not Buffer" unless the id is a Buffer; otherwise the
      frame is `[0x00, len, ck, 0x32]` followed by the id. Storing `id.length + 4` into a
      Buffer slot keeps its low eight bits, so the frame validates exactly when the id has
      at most 251 bytes. */
  method SetStationId(id: IdArg) returns (r: Result<array<byte>>)
    ensures id.NotBuffer? ==> r == Err("Id not Buffer")
    ensures id.Buffer? ==>
      && r.Ok? && r.value.Length == 4 + |id.bytes|
      && r.value[..] == [0x00, ((|id.bytes| + 4) % 256) as byte, r.value[2], CommandStationId] + id.bytes
      && ValidFrame(r.value[..]) == (|id.bytes| <= 251)
  {
    if id.NotBuffer? {
      return Err("Id not Buffer");
    }
    var size := |id.bytes| + 4;
    var len := (size % 256) as byte;
    var buf := BuildFrame(len, CommandStationId, id.bytes);
    HeaderChecksumValid(len, buf[2], CommandStationId, id.bytes);
    return Ok(buf);
  }

  /** `setStationStatus`: `[0x00, 0x05, ck, 0x33, status]`; storing the status into a Buffer
      slot keeps it modulo 256. The frame always validates. */
  method SetStationStatus(status: int) returns (buf: array<byte>)
    ensures buf.Length == 5
    ensures buf[..] == [0x00, 0x05, buf[2], CommandStationStatus, (status % 256) as byte]
    ensures buf[2] as int == (CommandStationStatus as int + status % 256) % 256
    ensures ValidFrame(buf[..])
  {
    var s := (status % 256) as byte;
    buf := BuildFrame(0x05, CommandStationStatus, [s]);
    SumAppend([CommandStationStatus], s);
    assert [CommandStationStatus] + [s] == [CommandStationStatus, s];
    assert [CommandStationStatus][..0] == [];
    HeaderChecksumValid(0x05, buf[2], CommandStationStatus, [s]);
  }

  /** What the receiver does with an incoming chunk. */
  datatype Incoming =
    | Dropped               // empty chunk, or a valid frame with an unknown command
    | SpsData               // first byte not zero: transparent data
    | BleInit | BleAdvertising | BleConnectedClient | BleDisconnectedClient
    | Reply(cmd: byte)      // a validated command reply, emitted under its command code
    | SpsRes                // the bytes 00 fd fd
    | Unknown               // logged as unknown data

  /** The receiver's classification, its checks made in the source's order. */
  function Classify(data: seq<byte>): Incoming
  {
    if |data| == 0 then Dropped
    else if data[0] != 0 then SpsData
    else if |data| == 3 && data[1] == data[2] && 0x20 <= data[2] <= 0x23 then
      (if data[2] == 0x20 then BleInit
       else if data[2] == 0x21 then BleAdvertising
       else if data[2] == 0x22 then BleConnectedClient
       else BleDisconnectedClient)
    else if |data| > 4 && ValidFrame(data) then
      (if CommandPing <= data[3] <= CommandBindingProgress then Reply(data[3]) else Dropped)
    else if data == [0x00, 0xfd, 0xfd] then SpsRes
    else Unknown
  }

  /** A chunk is emitted as a command reply exactly when it starts with zero, is longer than
      four bytes, validates, and carries one of the five command codes. */
  lemma ClassifyReply(data: seq<byte>, cmd: byte)
    ensures Classify(data) == Reply(cmd) <==>
      (|data| > 4 && data[0] == 0 && ValidFrame(data) && data[3] == cmd &&
       CommandPing <= cmd <= CommandBindingProgress)
  {}

  /** Exactly the chunks starting with a non-zero byte are transparent data. */
  lemma ClassifySpsData(data: seq<byte>)
    ensures Classify(data) == SpsData <==> (|data| > 0 && data[0] != 0)
  {}

  /** The status events are exactly the three-byte chunks `[0x00, x, x]` with x in
      0x20..0x23. */
  lemma ClassifyStatus(data: seq<byte>)
    ensures Classify(data) in {BleInit, BleAdvertising, BleConnectedClient, BleDisconnectedClient} <==>
      (|data| == 3 && data[0] == 0 && data[1] == data[2] && 0x20 <= data[2] <= 0x23)
  {}

  /** `00 fd fd` is never a valid frame (its length byte is not 3), so it reaches the
      SPS_RES test. */
  lemma ClassifySpsRes()
    ensures Classify([0x00, 0xfd, 0xfd]) == SpsRes
  {}

  /** The chip answers a command with a frame of the same shape; what the queued caller
      receives is that frame without its 4-byte header (`data.slice(4)`). */
  function ReplyPayload(frame: seq<byte>): (r: seq<byte>)
    ensures |frame| >= 4 ==> frame[..4] + r == frame
    ensures |frame| < 4 ==> r == []
  {
    if |frame| >= 4 then frame[4..] else []
  }

  /** A reply frame shaped like the station-id command carries the id back as payload,
      and is classified as the reply to that command. */
  lemma StationIdReply(len: byte, ck: byte, id: seq<byte>)
    requires 0 < |id| <= 251 && len as int == 4 + |id|
    requires ck as int == Sum([CommandStationId] + id) % 256
    ensures Classify([0x00, len, ck, CommandStationId] + id) == Reply(CommandStationId)
    ensures ReplyPayload([0x00, len, ck, CommandStationId] + id) == id
  {
    HeaderChecksumValid(len, ck, CommandStationId, id);
    assert ([0x00, len, ck, CommandStationId] + id)[4..] == id;
  }
}
