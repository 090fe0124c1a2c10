/** `WriteNotifyCharacteristic` of `gatt-write-indicate-char.js`: a writable characteristic
    that keeps the last write and emits it, and whose `Value` the program sets with `update`.
    Constructed with `notify` or `indicate`, it has `Notifying`, `StartNotify` and
    `StopNotify`, and reports each new `Value` while notifying. */
module GattWriteIndicate {
  import opened Wrappers
  import opened DBusTypes
  import opened Framing
  import opened Interfaces
  import opened GattCharacteristic
  import Bus

  class WriteIndicateCharacteristic {
    /** The interface's identity in the object tree, which records its object (`dobj`). */
    const id: nat
    const uuid: Js
    const flags: seq<string>
    /** Whether `Notifying`, `StartNotify` and `StopNotify` exist. */
    const notifiable: bool
    var value: seq<int>
    var notifying: bool
    var cache: Option<Cache>
    var events: seq<Event>

    ghost predicate Valid()
      reads this
    {
      && AllBytes(value) && (notifying ==> notifiable)
      && |flags| == (if notifiable then 2 else 1) && flags[0] == "write"
    }

    constructor (id: nat, opts: map<string, Js>)
      requires Truthy(Opt(opts, "UUID"))
      ensures Valid() && this.id == id && uuid == Opt(opts, "UUID")
      ensures flags == NotifyFlags("write", opts) && notifiable == Notifiable(opts)
      ensures value == [] && !notifying && cache == None && events == []
    {
      this.id := id;
      uuid := Opt(opts, "UUID");
      flags := NotifyFlags("write", opts);
      notifiable := Notifiable(opts);
      value := [];
      notifying := false;
      cache := None;
      events := [];
    }

    /** `new WriteNotifyCharacteristic(opts)`: throws without a UUID. */
    static method Create(id: nat, opts: map<string, Js>) returns (r: Result<WriteIndicateCharacteristic>)
      ensures r.Err? <==> !Truthy(Opt(opts, "UUID"))
      ensures r.Err? ==> r.msg == "invalid opts.UUID"
      ensures r.Ok? ==> && fresh(r.value) && r.value.Valid() && r.value.id == id && r.value.uuid == Opt(opts, "UUID")
                        && r.value.flags == NotifyFlags("write", opts) && r.value.notifiable == Notifiable(opts)
                        && r.value.value == [] && !r.value.notifying && r.value.cache == None && r.value.events == []
    {
      if !Truthy(Opt(opts, "UUID")) {
        return Err("invalid opts.UUID");
      }
      var c := new WriteIndicateCharacteristic(id, opts);
      r := Ok(c);
    }

    /** The characteristic as an interface object: its own properties and the methods it
        has; it cannot be read by `ReadValue`. */
    function Own(): (i: Iface)
      reads this
      requires Valid()
      ensures Reports(i, value)
      ensures "Notifying" in i.values <==> notifiable
      ensures notifiable ==> i.values["Notifying"] == JBool(notifying)
      ensures "WriteValue" in i.handlers && "ReadValue" !in i.handlers && "Confirm" !in i.handlers
      ensures "StartNotify" in i.handlers <==> notifiable
    {
      var values := map["UUID" := uuid, "Value" := JArr(Numbers(value)), "Flags" := Texts(flags)];
      var handlers := {"WriteValue"} + (if notifiable then {"StartNotify", "StopNotify"} else {});
      Iface(CharacteristicName, CharacteristicDefinition, handlers,
            if notifiable then values["Notifying" := JBool(notifying)] else values, false)
    }

    method StartNotify()
      requires Valid() && notifiable
      modifies this
      ensures Valid() && notifying && value == old(value) && cache == old(cache) && events == old(events)
    {
      notifying := true;
    }

    method StopNotify()
      requires Valid() && notifiable
      modifies this
      ensures Valid() && !notifying && value == old(value) && cache == old(cache) && events == old(events)
    {
      notifying := false;
    }

    /** `WriteValue(val, opt, callback)`: keeps the write, replies, then emits the written
        bytes; `Value` stays as it was. The dispatcher has checked that `val` is an `ay`. */
    method WriteValue(val: Value, opt: Value, hasCallback: bool) returns (r: Result<()>)
      requires Valid() && IsByteArray(val)
      modifies this
      ensures Valid() && value == old(value) && notifying == old(notifying)
      ensures ParseOpts(opt).Err? ==> r == Err(ParseOpts(opt).msg) && cache == old(cache) && events == old(events)
      ensures ParseOpts(opt).Ok? ==>
                && r == Ok(()) && cache == Some(Cache(val, ParseOpts(opt).value))
                && events == old(events) + Written(val, ParseOpts(opt).value, hasCallback)
    {
      var o := ParseOpts(opt);
      if o.Err? {
        return Err(o.msg);
      }
      cache := Some(Cache(val, o.value));
      if hasCallback {
        events := events + [Replied];
      }
      events := events + [Wrote(BytesOf(val), o.value)];
      r := Ok(());
    }

    /** `update(val)`: a list of bytes or a buffer becomes the new `Value`, which a notifying
        characteristic then reports; anything else throws and changes nothing. */
    method Update(p: Payload, bus: Bus.DBus, table: map<nat, Iface>) returns (r: Result<()>)
      requires Valid() && bus.Valid() && Bus.Covers(bus.tree.ifaces, table)
      modifies this, bus.conn
      ensures Valid() && bus.Valid() && notifying == old(notifying)
      ensures cache == old(cache) && events == old(events)
      ensures Accepted(p).Err? ==> r == Err("invalid value") && value == old(value) && unchanged(bus.conn)
      ensures Accepted(p).Ok? ==> value == Accepted(p).value
      ensures Accepted(p).Ok? && !notifying ==> r == Ok(()) && unchanged(bus.conn)
      ensures Accepted(p).Ok? && notifying ==> Reported(bus, table, id, value, r)
    {
      var bs := Accepted(p);
      if bs.Err? {
        return Err(bs.msg);
      }
      value := bs.value;
      if notifying {
        r := Report(bus, table);
      } else {
        r := Ok(());
      }
    }

    /** `iface.PropertiesChanged(this, ['Value'])` through the Properties interface of the
        characteristic's object. */
    method Report(bus: Bus.DBus, table: map<nat, Iface>) returns (r: Result<()>)
      requires Valid() && bus.Valid() && Bus.Covers(bus.tree.ifaces, table)
      modifies bus.conn
      ensures bus.Valid() && Reported(bus, table, id, value, r)
    {
      r := ReportValue(bus, table, id, Own(), value);
    }
  }
}
