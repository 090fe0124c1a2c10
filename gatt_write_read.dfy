/** `WriteCharacteristic` of `gatt-write-read-char.js`: a writable characteristic that keeps
    the last write. Constructed `readable`, it also answers `ReadValue`, with the last write
    for the device that made it and an empty value for any other device. */
module GattWriteRead {
  import opened Wrappers
  import opened DBusTypes
  import opened Framing
  import opened Interfaces
  import opened GattCharacteristic

  /** A read by `opt.device` finds the cache: a write was kept and came from the same device
      (`this.cache.opt.device === opt.device`). */
  predicate Hit(cache: Option<Cache>, opt: map<string, Js>)
  {
    cache.Some? && Opt(cache.value.opt, "device") == Opt(opt, "device")
  }

  /** `readValue(opt)` against the cache: the answer and the cache after the read. */
  function CacheRead(cache: Option<Cache>, opt: map<string, Js>): (r: (Value, Option<Cache>))
  {
    if Hit(cache, opt) then (cache.value.val, cache) else (ByteArray([]), None)
  }

  /** A device reads back what it wrote, as often as it reads. */
  lemma ReadOwnWrite(val: Value, w: map<string, Js>, o: map<string, Js>)
    requires Opt(w, "device") == Opt(o, "device")
    ensures CacheRead(Some(Cache(val, w)), o) == (val, Some(Cache(val, w)))
    ensures CacheRead(CacheRead(Some(Cache(val, w)), o).1, o).0 == val
  {
  }

  /** A read by another device gets nothing and drops the write, so that the writer too
      gets nothing afterwards. */
  lemma ReadOtherWrite(val: Value, w: map<string, Js>, o: map<string, Js>)
    requires Opt(w, "device") != Opt(o, "device")
    ensures CacheRead(Some(Cache(val, w)), o) == (ByteArray([]), None)
    ensures CacheRead(CacheRead(Some(Cache(val, w)), o).1, w).0 == ByteArray([])
  {
  }

  /** Whatever a read answers is empty or the kept write of the reading device. */
  lemma ReadAnswers(cache: Option<Cache>, opt: map<string, Js>)
    ensures CacheRead(cache, opt).0 == ByteArray([]) || (Hit(cache, opt) && CacheRead(cache, opt).0 == cache.value.val)
    ensures CacheRead(cache, opt).1 == cache || CacheRead(cache, opt).1 == None
  {
  }

  class WriteReadCharacteristic {
    /** The interface's identity in the object tree. */
    const id: nat
    const uuid: Js
    /** Whether `ReadValue` exists. */
    const readable: bool
    const flags: seq<string>
    var cache: Option<Cache>
    var events: seq<Event>

    constructor (id: nat, opts: map<string, Js>)
      requires Truthy(Opt(opts, "UUID"))
      ensures this.id == id && uuid == Opt(opts, "UUID") && readable == Truthy(Opt(opts, "readable"))
      ensures flags == if readable then ["read", "write"] else ["write"]
      ensures cache == None && events == []
    {
      this.id := id;
      uuid := Opt(opts, "UUID");
      readable := Truthy(Opt(opts, "readable"));
      flags := if Truthy(Opt(opts, "readable")) then ["read", "write"] else ["write"];
      cache := None;
      events := [];
    }

    /** `new WriteCharacteristic(opts)`: throws without a UUID. */
    static method Create(id: nat, opts: map<string, Js>) returns (r: Result<WriteReadCharacteristic>)
      ensures r.Err? <==> !Truthy(Opt(opts, "UUID"))
      ensures r.Err? ==> r.msg == "invalid opts.UUID"
      ensures r.Ok? ==> && fresh(r.value) && r.value.id == id && r.value.uuid == Opt(opts, "UUID")
                        && r.value.readable == Truthy(Opt(opts, "readable"))
                        && r.value.flags == (if r.value.readable then ["read", "write"] else ["write"])
                        && r.value.cache == None && r.value.events == []
    {
      if !Truthy(Opt(opts, "UUID")) {
        return Err("invalid opts.UUID");
      }
      var c := new WriteReadCharacteristic(id, opts);
      r := Ok(c);
    }

    /** The characteristic as an interface object: no `Value` property, and `ReadValue`
        only when readable. */
    function Own(): (i: Iface)
      reads this
      ensures i.name == CharacteristicName && i.definition == CharacteristicDefinition
      ensures "Value" !in i.values && "Notifying" !in i.values && Property(i, "Flags") == Texts(flags)
      ensures "WriteValue" in i.handlers && ("ReadValue" in i.handlers <==> readable)
      ensures "StartNotify" !in i.handlers && "Confirm" !in i.handlers
    {
      Iface(CharacteristicName, CharacteristicDefinition,
            {"WriteValue"} + (if readable then {"ReadValue"} else {}),
            map["UUID" := uuid, "Flags" := Texts(flags)], false)
    }

    /** `readValue(opt, callback)`: the kept write when the same device reads it, else an
        empty `ay`, dropping a write kept for another device. */
    method ReadValue(opt: Value) returns (r: Result<Value>)
      requires readable
      modifies this
      ensures events == old(events)
      ensures ParseOpts(opt).Err? ==> r == Err(ParseOpts(opt).msg) && cache == old(cache)
      ensures ParseOpts(opt).Ok? ==> r.Ok? && (r.value, cache) == CacheRead(old(cache), ParseOpts(opt).value)
    {
      var o := ParseOpts(opt);
      if o.Err? {
        return Err(o.msg);
      }
      if cache.Some? {
        if Opt(cache.value.opt, "device") == Opt(o.value, "device") {
          return Ok(cache.value.val);
        } else {
          cache := None;
        }
      }
      var empty := BySignature("ay");
      assert ByteArray([]).elems == [];
      r := Ok(empty.value);
    }

    /** `WriteValue(val, opt, callback)`: keeps the write, replies, then emits the written
        bytes. The dispatcher has checked that `val` is an `ay`. */
    method WriteValue(val: Value, opt: Value, hasCallback: bool) returns (r: Result<()>)
      requires IsByteArray(val)
      modifies this
      ensures ParseOpts(opt).Err? ==> r == Err(ParseOpts(opt).msg) && cache == old(cache) && events == old(events)
      ensures ParseOpts(opt).Ok? ==>
                && r == Ok(()) && cache == Some(Cache(val, ParseOpts(opt).value))
                && events == old(events) + Written(val, ParseOpts(opt).value, hasCallback)
    {
      var o := ParseOpts(opt);
      if o.Err? {
        return Err(o.msg);
      }
      cache := Some(Cache(val, o.value));
      if hasCallback {
        events := events + [Replied];
      }
      events := events + [Wrote(BytesOf(val), o.value)];
      r := Ok(());
    }
  }
}
