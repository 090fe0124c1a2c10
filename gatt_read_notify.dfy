/** `ReadNotifyCharacteristic` of `gatt-read-notify-char.js`: a readable characteristic whose
    `Value` the program sets with `update`. Constructed with `notify` or `indicate`, it also
    has `Notifying`, `StartNotify` and `StopNotify`, and reports each new `Value` while
    notifying. */
module GattReadNotify {
  import opened Wrappers
  import opened JsStrings
  import opened DBusTypes
  import opened Framing
  import opened Interfaces
  import opened GattCharacteristic
  import Bus

  /** `ToString` of a value as `Array.prototype.join` writes each element: `undefined` as
      the empty text, a number or a bigint by its digits, a boolean as `true` or `false`, an
      array as its elements joined by commas, and any other object as `[object Object]`. */
  function JoinedText(j: Js): string
    decreases j, 1
  {
    match j
    case JUndefined => ""
    case JNum(n) => NumberText(n)
    case JBig(n) => NumberText(n)
    case JBool(b) => if b then "true" else "false"
    case JStr(s) => s
    case JArr(items) => JoinedItems(items)
    case JOther => "[object Object]"
  }

  /** `items.join(',')`, which `ToNumber` of an array reads. */
  function JoinedItems(items: seq<Js>): string
    decreases items, 0
  {
    if items == [] then ""
    else if |items| == 1 then JoinedText(items[0])
    else JoinedText(items[0]) + "," + JoinedItems(items[1..])
  }

  /** `opts.offset || 0` as `Array.prototype.slice` converts it, by `ToIntegerOrInfinity`
      of `ToNumber` (sections 7.1.4 and 7.1.5 of ECMA-262): a number as it is, `true` as 1,
      a falsy value as 0, a string by `StringToNumber` and an array through its joined
      text; `ToNumber` of a bigint throws. */
  function Offset(j: Js): (r: Result<Whole>)
    ensures r.Err? <==> j.JBig? && j.n != 0
    ensures j.JNum? ==> r == Ok(Finite(j.n))
    ensures !Truthy(j) ==> r == Ok(Finite(0))
    ensures j.JStr? ==> r == Ok(StringToInteger(j.s))
    ensures j.JArr? ==> r == Ok(StringToInteger(JoinedItems(j.items)))
  {
    if !Truthy(j) then Ok(Finite(0))
    else match j
      case JNum(n) => Ok(Finite(n))
      case JBool(_) => Ok(Finite(1))
      case JBig(_) => Err("Cannot convert a BigInt value to a number")
      case JStr(s) => Ok(StringToInteger(s))
      case JArr(items) => Ok(StringToInteger(JoinedItems(items)))
      case _ => Ok(Finite(0))
  }

  /** A number's decimal text, and an array holding just that number, are read as the
      number; the empty array is read as 0. */
  lemma OffsetOfText(n: int)
    ensures Offset(JStr(NumberText(n))) == Ok(Finite(n))
    ensures Offset(JArr([JNum(n)])) == Ok(Finite(n))
    ensures Offset(JArr([])) == Ok(Finite(0))
  {
    NumberTextRead(n);
    assert JoinedItems([JNum(n)]) == NumberText(n);
    assert Trim("") == "";
  }

  /** An array of two numbers joins to a text with a comma in it, which is `NaN`, read as
      0. */
  lemma OffsetOfPair(a: int, b: int)
    ensures Offset(JArr([JNum(a), JNum(b)])) == Ok(Finite(0))
  {
    var t := NumberText(a) + "," + NumberText(b);
    assert JoinedItems([JNum(a), JNum(b)]) == t by {
      assert [JNum(a), JNum(b)][1..] == [JNum(b)];
      assert JoinedItems([JNum(b)]) == NumberText(b);
      assert JoinedText(JNum(a)) == NumberText(a);
    }
    CommaRead(t, |NumberText(a)|);
  }

  /** Where `slice(offset)` starts in a list of `len` elements: a negative offset counts back
      from the end, and the start is clamped to the list. */
  function SliceStart(len: nat, offset: Whole): (s: nat)
    ensures s <= len
    ensures offset == Finite(0) ==> s == 0
    ensures offset.Finite? && 0 <= offset.n <= len ==> s == offset.n
    ensures offset.Finite? && -(len as int) <= offset.n < 0 ==> s == len + offset.n
    ensures offset == Infinite(true) || (offset.Finite? && offset.n > len) ==> s == len
    ensures offset == Infinite(false) || (offset.Finite? && offset.n < -(len as int)) ==> s == 0
  {
    match offset
    case Infinite(positive) => if positive then len else 0
    case Finite(n) =>
      if n < 0 then (if len + n < 0 then 0 else len + n)
      else if n > len then len
      else n
  }

  /** What `ReadValue(opts)` answers for the bytes `value`: the bytes from `opts.offset` on,
      as `ay`, or the error reading the options throws. */
  function ReadResult(value: seq<int>, opts: Value): (r: Result<Value>)
    requires AllBytes(value)
    ensures r.Ok? <==> ParseOpts(opts).Ok? && Offset(Opt(ParseOpts(opts).value, "offset")).Ok?
    ensures r.Ok? ==>
              && var s := SliceStart(|value|, Offset(Opt(ParseOpts(opts).value, "offset")).value);
              && r.value == ByteArray(value[s..])
              && Sig(r.value) == "ay" && Eval(r.value) == JArr(Numbers(value[s..]))
  {
    var o :- ParseOpts(opts);
    var offset :- Offset(Opt(o, "offset"));
    var tail := value[SliceStart(|value|, offset)..];
    ByteArrayBuilt(tail);
    ByteArrayRead(tail);
    New("ay", JArr(Numbers(tail)))
  }

  /** Without an `offset` option the whole `Value` is read. */
  lemma ReadWhole(value: seq<int>)
    requires AllBytes(value)
    ensures ReadResult(value, OptsValue([])) == Ok(ByteArray(value))
  {
    ParseOptsRead([]);
    assert value[SliceStart(|value|, Finite(0))..] == value;
  }

  /** With a `uint16` offset `n`, the bytes from `n` on are read; none past the end. */
  lemma ReadFrom(value: seq<int>, n: nat, device: Value)
    requires AllBytes(value) && n < 0x1_0000
    ensures var opts := OptsValue([("device", device), ("offset", Int('q', n, false))]);
            ReadResult(value, opts) == Ok(ByteArray(if n <= |value| then value[n..] else []))
  {
    var ps := [("device", device), ("offset", Int('q', n, false))];
    ParseOptsRead(ps);
    OptsMapLast(ps, 1);
    assert Eval(Int('q', n, false)) == JNum(n);
  }

  class ReadNotifyCharacteristic {
    /** The interface's identity in the object tree, which records its object (`dobj`). */
    const id: nat
    const uuid: Js
    const flags: seq<string>
    /** Whether `Notifying`, `StartNotify` and `StopNotify` exist. */
    const notifiable: bool
    var value: seq<int>
    var notifying: bool

    ghost predicate Valid()
      reads this
    {
      && AllBytes(value) && (notifying ==> notifiable)
      && |flags| == (if notifiable then 2 else 1) && flags[0] == "read"
    }

    constructor (id: nat, opts: map<string, Js>)
      requires Truthy(Opt(opts, "UUID"))
      ensures Valid() && this.id == id && uuid == Opt(opts, "UUID")
      ensures flags == NotifyFlags("read", opts) && notifiable == Notifiable(opts)
      ensures value == [] && !notifying
    {
      this.id := id;
      uuid := Opt(opts, "UUID");
      flags := NotifyFlags("read", opts);
      notifiable := Notifiable(opts);
      value := [];
      notifying := false;
    }

    /** `new ReadNotifyCharacteristic(opts)`: throws without a UUID. */
    static method Create(id: nat, opts: map<string, Js>) returns (r: Result<ReadNotifyCharacteristic>)
      ensures r.Err? <==> !Truthy(Opt(opts, "UUID"))
      ensures r.Err? ==> r.msg == "invalid opts.UUID"
      ensures r.Ok? ==> && fresh(r.value) && r.value.Valid() && r.value.id == id && r.value.uuid == Opt(opts, "UUID")
                        && r.value.flags == NotifyFlags("read", opts) && r.value.notifiable == Notifiable(opts)
                        && r.value.value == [] && !r.value.notifying
    {
      if !Truthy(Opt(opts, "UUID")) {
        return Err("invalid opts.UUID");
      }
      var c := new ReadNotifyCharacteristic(id, opts);
      r := Ok(c);
    }

    /** The characteristic as an interface object: its own properties and the methods it
        has. `Service` and `Descriptors` are getters, modelled by `ServicePath` and
        `Descriptors`. */
    function Own(): (i: Iface)
      reads this
      requires Valid()
      ensures Reports(i, value)
      ensures "Notifying" in i.values <==> notifiable
      ensures notifiable ==> i.values["Notifying"] == JBool(notifying)
      ensures "ReadValue" in i.handlers && "WriteValue" !in i.handlers && "Confirm" !in i.handlers
      ensures "StartNotify" in i.handlers <==> notifiable
    {
      var values := map["UUID" := uuid, "Value" := JArr(Numbers(value)), "Flags" := Texts(flags)];
      var handlers := {"ReadValue"} + (if notifiable then {"StartNotify", "StopNotify"} else {});
      Iface(CharacteristicName, CharacteristicDefinition, handlers,
            if notifiable then values["Notifying" := JBool(notifying)] else values, false)
    }

    method StartNotify()
      requires Valid() && notifiable
      modifies this
      ensures Valid() && notifying && value == old(value)
    {
      notifying := true;
    }

    method StopNotify()
      requires Valid() && notifiable
      modifies this
      ensures Valid() && !notifying && value == old(value)
    {
      notifying := false;
    }

    /** `ReadValue(opts, callback)`: answers the bytes of `Value` from `opts.offset` on. */
    method ReadValue(opts: Value) returns (r: Result<Value>)
      requires Valid()
      ensures r == ReadResult(value, opts)
    {
      var o := ParseOpts(opts);
      if o.Err? {
        return Err(o.msg);
      }
      var offset := Offset(Opt(o.value, "offset"));
      if offset.Err? {
        return Err(offset.msg);
      }
      var tail := value[SliceStart(|value|, offset.value)..];
      ByteArrayBuilt(tail);
      r := New("ay", JArr(Numbers(tail)));
    }

    /** `update(val)`: a list of bytes or a buffer becomes the new `Value`, which a notifying
        characteristic then reports; anything else throws and changes nothing. */
    method Update(p: Payload, bus: Bus.DBus, table: map<nat, Iface>) returns (r: Result<()>)
      requires Valid() && bus.Valid() && Bus.Covers(bus.tree.ifaces, table)
      modifies this, bus.conn
      ensures Valid() && bus.Valid() && notifying == old(notifying)
      ensures Accepted(p).Err? ==> r == Err("invalid value") && value == old(value) && unchanged(bus.conn)
      ensures Accepted(p).Ok? ==> value == Accepted(p).value
      ensures Accepted(p).Ok? && !notifying ==> r == Ok(()) && unchanged(bus.conn)
      ensures Accepted(p).Ok? && notifying ==> Reported(bus, table, id, value, r)
    {
      var bs := Accepted(p);
      if bs.Err? {
        return Err(bs.msg);
      }
      value := bs.value;
      if notifying {
        r := ReportValue(bus, table, id, Own(), value);
      } else {
        r := Ok(());
      }
    }
  }
}
