/** The `org.bluez.GattCharacteristic1` mixin of `gatt-characteristic1.js`, which every
    characteristic class extends: the interface definition, `parseOpts`, and the `Service` and
    `Descriptors` getters. Also what the characteristic classes share: `ay` values, the check
    `update` makes on a new value, and the `PropertiesChanged` report of a new `Value`. */
module GattCharacteristic {
  import opened Wrappers
  import opened Octets
  import opened DBusTypes
  import opened Framing
  import opened NodePath
  import opened ObjectTree
  import opened Interfaces
  import Properties
  import Bus

  const CharacteristicName: string := "org.bluez.GattCharacteristic1"

  /** The introspection definition: `ReadValue(a{sv}) -> ay`, `WriteValue(ay, a{sv})`, the
      argument-less `StartNotify`, `StopNotify` and `Confirm`, and eight properties. */
  const CharacteristicDefinition: Definition := Definition(
    map["ReadValue" := [Arg("in", "a{sv}"), Arg("out", "ay")],
        "WriteValue" := [Arg("in", "ay"), Arg("in", "a{sv}")],
        "StartNotify" := [], "StopNotify" := [], "Confirm" := []],
    CharacteristicProperties)

  const CharacteristicProperties: seq<PropDecl> :=
    [PropDecl("UUID", "s"), PropDecl("Service", "o"), PropDecl("Value", "ay"),
     PropDecl("WriteAcquired", "b"), PropDecl("NotifyAcquired", "b"), PropDecl("Notifying", "b"),
     PropDecl("Flags", "as"), PropDecl("Descriptors", "ao")]

  /** Of the characteristic's properties, `Value` alone is named `Value`. */
  lemma ValueDeclared()
    ensures Properties.Declared(["Value"], CharacteristicProperties) == [PropDecl("Value", "ay")]
  {
    var ps := CharacteristicProperties;
    assert ps[0].name != "Value" && ps[1].name != "Value" && ps[2].name == "Value";
    assert Properties.FirstDecl(ps[2..], "Value") == Some(ps[2]);
    assert Properties.FirstDecl(ps[1..], "Value") == Some(ps[2]);
    assert Properties.FirstDecl(ps, "Value") == Some(PropDecl("Value", "ay"));
  }

  /** The signatures the dispatcher checks a call against and answers with. */
  lemma MethodTable()
    ensures Signatures(CharacteristicDefinition.methods["ReadValue"], "in") == ["a{sv}"]
    ensures Signatures(CharacteristicDefinition.methods["ReadValue"], "out") == ["ay"]
    ensures Signatures(CharacteristicDefinition.methods["WriteValue"], "in") == ["ay", "a{sv}"]
    ensures Signatures(CharacteristicDefinition.methods["WriteValue"], "out") == []
    ensures forall m :: m in {"StartNotify", "StopNotify", "Confirm"} ==> CharacteristicDefinition.methods[m] == []
  {
    var read := CharacteristicDefinition.methods["ReadValue"];
    assert Signatures(read[1..], "in") == [];
    var write := CharacteristicDefinition.methods["WriteValue"];
    assert Signatures(write[1..], "in") == ["a{sv}"];
  }

  /** `opts[key]`, `undefined` when the key is absent. */
  function Opt(opts: map<string, Js>, key: string): Js
  {
    if key in opts then opts[key] else JUndefined
  }

  // ---------------------------------------------------------------------------------------
  // parseOpts

  /** `parseOpts(opts)`: `opts.eval()` reduced to a map from each name to the value inside
      its variant, a later name replacing an earlier one. */
  function ParseOpts(opts: Value): Result<map<string, Js>>
  {
    var j := Eval(opts);
    if j.JArr? then Bus.Changed(j.items) else Err("opts.eval(...).reduce is not a function")
  }

  /** The `a{sv}` options value holding the named values `ps` in order. */
  function OptsValue(ps: seq<(string, Value)>): (v: Value)
    ensures v.Array? && |v.elems| == |ps|
  {
    Array("{sv}", seq(|ps|, k requires 0 <= k < |ps| => Properties.PropEntry(ps[k].0, ps[k].1)))
  }

  /** The options of `ps` are exactly the names of `ps`. */
  ghost predicate NamedIn(ps: seq<(string, Value)>, m: map<string, Js>)
  {
    forall name :: name in m <==> exists k :: 0 <= k < |ps| && ps[k].0 == name
  }

  /** `ps[k]` is the last entry with its name. */
  predicate LastNamed(ps: seq<(string, Value)>, k: nat)
    requires k < |ps|
  {
    forall i :: k < i < |ps| ==> ps[i].0 != ps[k].0
  }

  /** The map the options `ps` stand for: each name with the value of its entry, a later entry
      replacing an earlier one. */
  function OptsMap(ps: seq<(string, Value)>): map<string, Js>
    decreases |ps|
  {
    if ps == [] then map[] else OptsMap(ps[..|ps| - 1])[ps[|ps| - 1].0 := Eval(ps[|ps| - 1].1)]
  }

  /** `parseOpts` reads options back as the map they stand for. */
  lemma {:induction false} ParseOptsRead(ps: seq<(string, Value)>)
    ensures ParseOpts(OptsValue(ps)) == Ok(OptsMap(ps))
    decreases |ps|
  {
    var es := OptsValue(ps).elems;
    if ps == [] {
      assert EvalAll(es) == [];
    } else {
      var n := |ps| - 1;
      assert OptsValue(ps[..n]).elems == es[..n];
      ParseOptsRead(ps[..n]);
      Bus.EvalPrefix(es, n);
      Bus.EntryRead(ps[n].0, ps[n].1);
      var items := EvalAll(es);
      assert items[..|items| - 1] == EvalAll(es[..n]);
      assert items[|items| - 1] == Eval(Properties.PropEntry(ps[n].0, ps[n].1));
    }
  }

  /** The names of the options map are exactly the names of the entries. */
  lemma {:induction false} OptsMapNames(ps: seq<(string, Value)>)
    ensures NamedIn(ps, OptsMap(ps))
    decreases |ps|
  {
    if ps != [] {
      var n := |ps| - 1;
      var pre := ps[..n];
      OptsMapNames(pre);
      forall name | name in OptsMap(ps)
        ensures exists k :: 0 <= k < |ps| && ps[k].0 == name
      {
        if name != ps[n].0 {
          var k :| 0 <= k < |pre| && pre[k].0 == name;
          assert ps[k].0 == name;
        }
      }
      forall name | exists k :: 0 <= k < |ps| && ps[k].0 == name
        ensures name in OptsMap(ps)
      {
        var k :| 0 <= k < |ps| && ps[k].0 == name;
        if k < n {
          assert pre[k].0 == name;
        }
      }
    }
  }

  /** Each name maps to the value of the last entry with that name. */
  lemma {:induction false} OptsMapLast(ps: seq<(string, Value)>, k: nat)
    requires k < |ps| && LastNamed(ps, k)
    ensures ps[k].0 in OptsMap(ps) && OptsMap(ps)[ps[k].0] == Eval(ps[k].1)
    decreases |ps|
  {
    var n := |ps| - 1;
    if k < n {
      var pre := ps[..n];
      assert pre[k] == ps[k];
      assert LastNamed(pre, k);
      OptsMapLast(pre, k);
    }
  }

  // ---------------------------------------------------------------------------------------
  // Byte values

  predicate AllBytes(bs: seq<int>)
  {
    forall k :: 0 <= k < |bs| ==> 0 <= bs[k] < 256
  }

  /** The JavaScript array of numbers `bs`. */
  function Numbers(bs: seq<int>): seq<Js>
  {
    seq(|bs|, k requires 0 <= k < |bs| => JNum(bs[k]))
  }

  /** The `ay` value of the bytes `bs`. */
  function ByteArray(bs: seq<int>): Value
  {
    Array("y", seq(|bs|, k requires 0 <= k < |bs| => Int('y', bs[k], false)))
  }

  /** An `ay` value whose elements are bytes, as the dispatcher delivers one. */
  predicate IsByteArray(v: Value)
  {
    && v.Array? && v.esig == "y"
    && forall k :: 0 <= k < |v.elems| ==> v.elems[k].Int? && v.elems[k] == Int('y', v.elems[k].n, false) && 0 <= v.elems[k].n < 256
  }

  /** The bytes of an `ay` value. */
  function BytesOf(v: Value): seq<int>
    requires IsByteArray(v)
  {
    seq(|v.elems|, k requires 0 <= k < |v.elems| => v.elems[k].n)
  }

  /** `ByteArray` and `BytesOf` are inverse. */
  lemma BytesRoundTrip(bs: seq<int>, v: Value)
    requires AllBytes(bs) && IsByteArray(v)
    ensures IsByteArray(ByteArray(bs)) && BytesOf(ByteArray(bs)) == bs
    ensures ByteArray(BytesOf(v)) == v
  {
    assert ByteArray(BytesOf(v)).elems == v.elems;
  }

  lemma {:induction false} BytesBuiltFrom(bs: seq<int>, i: nat)
    requires AllBytes(bs) && i <= |bs|
    ensures NewAll("y", JArr(Numbers(bs)), i) == Ok(ByteArray(bs).elems[i..])
    decreases |bs| - i
  {
    if i < |bs| {
      BytesBuiltFrom(bs, i + 1);
      assert New("y", JNum(bs[i])) == Ok(Int('y', bs[i], false));
      assert ByteArray(bs).elems[i..] == [Int('y', bs[i], false)] + ByteArray(bs).elems[i + 1..];
    } else {
      assert ByteArray(bs).elems[i..] == [];
    }
  }

  /** `new ARRAY('ay', bs)` of numbers that are bytes builds their `ay` value. */
  lemma ByteArrayBuilt(bs: seq<int>)
    requires AllBytes(bs)
    ensures New("ay", JArr(Numbers(bs))) == Ok(ByteArray(bs))
  {
    BytesBuiltFrom(bs, 0);
    assert ByteArray(bs).elems[0..] == ByteArray(bs).elems;
  }

  /** An `ay` value evaluates to its numbers. */
  lemma {:induction false} ByteArrayRead(bs: seq<int>)
    ensures Sig(ByteArray(bs)) == "ay" && Eval(ByteArray(bs)) == JArr(Numbers(bs))
    decreases |bs|
  {
    var es := ByteArray(bs).elems;
    if bs != [] {
      ByteArrayRead(bs[1..]);
      assert es[1..] == ByteArray(bs[1..]).elems;
      assert Numbers(bs) == [JNum(bs[0])] + Numbers(bs[1..]);
      assert EvalAll(es) == [Eval(es[0])] + EvalAll(es[1..]);
      assert Eval(es[0]) == JNum(bs[0]);
    }
    assert Sig(ByteArray(bs)) == "a" + "y";
  }

  // ---------------------------------------------------------------------------------------
  // WriteValue

  /** The last write a characteristic keeps (`this.cache = { val, opt }`). */
  datatype Cache = Cache(val: Value, opt: map<string, Js>)

  /** What a writable characteristic did, in order: the reply the callback sends, and the
      `WriteValue` event with the written bytes and the options. */
  datatype Event = Replied | Wrote(octets: seq<int>, opt: map<string, Js>)

  /** The events of `WriteValue(val, opt, callback)`: the reply first, when there is a
      callback, then the event. */
  function Written(val: Value, opt: map<string, Js>, hasCallback: bool): (es: seq<Event>)
    requires IsByteArray(val)
    ensures |es| > 0 && es[|es| - 1] == Wrote(BytesOf(val), opt)
    ensures hasCallback <==> |es| == 2
    ensures hasCallback ==> es[0] == Replied
  {
    (if hasCallback then [Replied] else []) + [Wrote(BytesOf(val), opt)]
  }

  /** `Buffer.from(val.eval())` holds the bytes of `val`. */
  lemma WrittenBytes(val: Value)
    requires IsByteArray(val)
    ensures AllBytes(BytesOf(val)) && Eval(val) == JArr(Numbers(BytesOf(val)))
  {
    BytesRoundTrip(BytesOf(val), val);
    ByteArrayRead(BytesOf(val));
  }

  // ---------------------------------------------------------------------------------------
  // update

  /** What `update` is given: a plain value or a Node.js `Buffer`. */
  datatype Payload = Plain(j: Js) | Buffer(octets: seq<byte>)

  /** The check `update` makes: an array of integers from 0 to 255 is kept as it is and a
      buffer is copied into an array; anything else throws. */
  function Accepted(p: Payload): (r: Result<seq<int>>)
    ensures r.Ok? ==> AllBytes(r.value)
    ensures p.Buffer? ==> r.Ok? && |r.value| == |p.octets| && forall k :: 0 <= k < |p.octets| ==> r.value[k] == p.octets[k] as int
    ensures p.Plain? ==> (r.Ok? <==> p.j.JArr? && forall k :: 0 <= k < |p.j.items| ==> p.j.items[k].JNum? && 0 <= p.j.items[k].n < 256)
    ensures p.Plain? && r.Ok? ==> JArr(Numbers(r.value)) == p.j
    ensures r.Err? ==> r.msg == "invalid value"
  {
    match p
    case Buffer(octets) => Ok(seq(|octets|, k requires 0 <= k < |octets| => octets[k] as int))
    case Plain(j) =>
      if j.JArr? && forall k :: 0 <= k < |j.items| ==> j.items[k].JNum? && 0 <= j.items[k].n < 256 then
        var bs := seq(|j.items|, k requires 0 <= k < |j.items| => j.items[k].n);
        assert Numbers(bs) == j.items;
        Ok(bs)
      else Err("invalid value")
  }

  /** Whether the constructor options ask for notification (`opts.indicate || opts.notify`). */
  predicate Notifiable(opts: map<string, Js>)
  {
    Truthy(Opt(opts, "indicate")) || Truthy(Opt(opts, "notify"))
  }

  /** The constructor's `Flags`: `base`, then `'indicate'` when `opts.indicate`, else
      `'notify'` when `opts.notify`. */
  function NotifyFlags(base: string, opts: map<string, Js>): (r: seq<string>)
    ensures |r| == (if Notifiable(opts) then 2 else 1) && r[0] == base
    ensures |r| == 2 ==> (r[1] == "indicate" <==> Truthy(Opt(opts, "indicate")))
    ensures |r| == 2 ==> (r[1] == "notify" <==> !Truthy(Opt(opts, "indicate")))
  {
    if Truthy(Opt(opts, "indicate")) then [base, "indicate"]
    else if Truthy(Opt(opts, "notify")) then [base, "notify"]
    else [base]
  }

  /** The JavaScript array of strings `ss`. */
  function Texts(ss: seq<string>): Js
  {
    JArr(seq(|ss|, k requires 0 <= k < |ss| => JStr(ss[k])))
  }

  /** The characteristic as `PropertiesChanged` reads it: its name, its definition and its
      `Value`, the bytes `bs`. */
  predicate Reports(own: Iface, bs: seq<int>)
  {
    && own.name == CharacteristicName && own.definition == CharacteristicDefinition
    && Property(own, "Value") == JArr(Numbers(bs)) && AllBytes(bs)
  }

  /** The body of the `PropertiesChanged` signal reporting the new `Value` `bs`. */
  function ValueChangedBody(bs: seq<int>): seq<Value>
  {
    [Text('s', CharacteristicName), Array("{sv}", [Properties.PropEntry("Value", ByteArray(bs))]), Properties.Invalidated([])]
  }

  /** `PropertiesChanged(this, ['Value'])` always has a signal to send, with the new bytes. */
  lemma ValueChange(own: Iface, bs: seq<int>)
    requires Reports(own, bs)
    ensures Bus.Emits(own, ["Value"], [])
    ensures Properties.ChangedBody(own, ["Value"], []).value.value == ValueChangedBody(bs)
  {
    ValueDeclared();
    ValueEntry(own, bs);
    Properties.EntriesArray([Properties.PropEntry("Value", ByteArray(bs))]);
  }

  /** The one changed entry: `Value` with the new bytes. */
  lemma ValueEntry(own: Iface, bs: seq<int>)
    requires Reports(own, bs)
    ensures Properties.ChangedEntries([PropDecl("Value", "ay")], own) == Ok([Properties.PropEntry("Value", ByteArray(bs))])
  {
    ByteArrayBuilt(bs);
    var nss := [PropDecl("Value", "ay")];
    var e := Properties.PropEntry("Value", ByteArray(bs));
    assert New(nss[0].sig, Property(own, nss[0].name)) == Ok(ByteArray(bs));
    assert Properties.ChangedEntries(nss[1..], own) == Ok([]);
    assert [e] + [] == [e];
  }

  /** A listener on the characteristic's path receives exactly the new bytes as `Value`,
      and nothing invalidated. */
  lemma ValueNotice(path: string, bs: seq<int>)
    requires AllBytes(bs)
    ensures Bus.NoticeOf(Bus.ChangedSignal(path, ValueChangedBody(bs))) ==
              Ok(Some(Bus.Notice(JStr(path), JStr(CharacteristicName), map["Value" := JArr(Numbers(bs))], JArr([]))))
  {
    var own := Iface(CharacteristicName, CharacteristicDefinition, {}, map["Value" := JArr(Numbers(bs))], false);
    ValueChange(own, bs);
    Bus.ChangedRoundTrip(path, own, ["Value"], []);
    var nss := [PropDecl("Value", "ay")];
    ValueDeclared();
    ByteArrayBuilt(bs);
    ByteArrayRead(bs);
    assert Bus.Reading(nss[0], own) == JArr(Numbers(bs));
    Bus.ChangedMapStep(nss, own);
    assert Bus.ChangedMap(nss, own) == map["Value" := JArr(Numbers(bs))];
    var none: seq<string> := [];
    assert seq(|none|, k requires 0 <= k < |none| => JStr(none[k])) == [];
  }

  /** The object whose `org.freedesktop.DBus.Properties` interface reports changes of the
      characteristic `id`: the first such interface of the characteristic's object, `None`
      when it has none, or the error looking it up throws. */
  function Reporter(t: Tree, table: map<nat, Iface>, id: nat): (r: Result<Option<nat>>)
    reads t
    requires t.Valid() && Bus.Covers(t.ifaces, table)
    ensures r.Ok? && r.value.Some? ==> r.value.value < |t.names|
  {
    if id !in t.owner then Err("Cannot read property 'ifaces' of undefined")
    else
      var n := t.owner[id];
      var k := FindByName(t.ifaces[n], table, JStr(PropertiesName));
      if k.None? then Ok(None)
      else if t.ifaces[n][k.value] !in t.owner then Err("Cannot read property 'driver' of undefined")
      else Ok(Some(t.owner[t.ifaces[n][k.value]]))
  }

  /** What reporting the new `Value` `bs` of characteristic `id` did to the connection. */
  twostate predicate Reported(bus: Bus.DBus, table: map<nat, Iface>, id: nat, bs: seq<int>, new r: Result<()>)
    reads bus.tree, bus.conn
  {
    && bus.tree.Valid() && Bus.Covers(bus.tree.ifaces, table)
    && var who := Reporter(bus.tree, table, id);
    && (who.Err? ==> r == Err(who.msg) && unchanged(bus.conn))
    && (who == Ok(None) ==> r == Ok(()) && unchanged(bus.conn))
    && (who.Ok? && who.value.Some? ==> Announced(bus, who.value.value, bs, r))
  }

  /** What object `n` sending `PropertiesChanged` for the new `Value` `bs` did to the
      connection: an error when `n` is not under the bus's root, else the signal, with the
      next serial, went out if it could be framed. */
  twostate predicate Announced(bus: Bus.DBus, n: nat, bs: seq<int>, new r: Result<()>)
    reads bus.tree, bus.conn
  {
    && bus.tree.Valid() && n < |bus.tree.names|
    && (bus.tree.root[n] != 0 ==> r == Err("Cannot read property 'driver' of null") && unchanged(bus.conn))
    && (bus.tree.root[n] == 0 ==>
          && var sm := Bus.ChangedSignal(JoinPath(bus.tree.PathNames(n)), ValueChangedBody(bs)).(msgType := "SIGNAL");
          && bus.conn.serial == old(bus.conn.serial) + 1 && bus.conn.callMap == old(bus.conn.callMap)
          && (r.Ok? <==> Wired(sm, old(bus.conn.serial), bus.conn.myName).Ok?)
          && bus.conn.sent == old(bus.conn.sent) + (if r.Ok? then [Wired(sm, old(bus.conn.serial), bus.conn.myName).value] else []))
  }

  /** `iface.PropertiesChanged(this, ['Value'])` by the Properties interface of object `n`. */
  method Announce(bus: Bus.DBus, n: nat, own: Iface, ghost bs: seq<int>) returns (r: Result<()>)
    requires bus.Valid() && n < |bus.tree.names| && Reports(own, bs)
    modifies bus.conn
    ensures bus.Valid()
    ensures Announced(bus, n, bs, r)
  {
    ValueChange(own, bs);
    assert Properties.ChangedBody(own, ["Value"], []) == Ok(Some(ValueChangedBody(bs)));
    r := bus.PropertiesChanged(n, own, ["Value"], []);
  }

  /** The end of `update` on a notifying characteristic: its object's Properties interface,
      if any, sends `PropertiesChanged` for `Value`. */
  method ReportValue(bus: Bus.DBus, table: map<nat, Iface>, id: nat, own: Iface, ghost bs: seq<int>) returns (r: Result<()>)
    requires bus.Valid() && Bus.Covers(bus.tree.ifaces, table) && Reports(own, bs)
    modifies bus.conn
    ensures bus.Valid()
    ensures Reported(bus, table, id, bs, r)
  {
    var t := bus.tree;
    if id !in t.owner {
      return Err("Cannot read property 'ifaces' of undefined");
    }
    var n := t.owner[id];
    var k := FindByName(t.ifaces[n], table, JStr(PropertiesName));
    if k.None? {
      return Ok(());
    }
    var pid := t.ifaces[n][k.value];
    if pid !in t.owner {
      return Err("Cannot read property 'driver' of undefined");
    }
    assert Reporter(t, table, id) == Ok(Some(t.owner[pid]));
    r := Announce(bus, t.owner[pid], own, bs);
  }

  // ---------------------------------------------------------------------------------------
  // Getters

  /** `Service`: `this.dobj.parent.objectPath()`, the path of the object above the
      characteristic's, whose names are those of the characteristic's path but the last. */
  method ServicePath(t: Tree, id: nat) returns (r: Result<string>)
    requires t.Valid()
    ensures id !in t.owner ==> r == Err("Cannot read property 'parent' of undefined")
    ensures id in t.owner && t.parent[t.owner[id]] < 0 ==> r == Err("Cannot read property 'objectPath' of undefined")
    ensures id in t.owner && t.parent[t.owner[id]] >= 0 ==>
              && r == Ok(JoinPath(t.PathNames(t.parent[t.owner[id]])))
              && t.PathNames(t.owner[id]) == t.PathNames(t.parent[t.owner[id]]) + [t.names[t.owner[id]]]
  {
    if id !in t.owner {
      return Err("Cannot read property 'parent' of undefined");
    }
    var n := t.owner[id];
    if t.parent[n] < 0 {
      return Err("Cannot read property 'objectPath' of undefined");
    }
    var p := t.ObjectPath(t.parent[n]);
    r := Ok(p);
  }

  /** `Descriptors`: the paths of the children of the characteristic's object, in child
      order; each is the characteristic's path extended by the child's name. */
  method Descriptors(t: Tree, id: nat) returns (r: Result<seq<string>>)
    requires t.Valid()
    ensures id !in t.owner <==> r.Err?
    ensures r.Err? ==> r.msg == "Cannot read property 'children' of undefined"
    ensures r.Ok? ==> |r.value| == |t.children[t.owner[id]]|
    ensures r.Ok? ==> forall k :: 0 <= k < |r.value| ==>
              r.value[k] == JoinPath(t.PathNames(t.owner[id]) + [t.names[t.children[t.owner[id]][k]]])
  {
    if id !in t.owner {
      return Err("Cannot read property 'children' of undefined");
    }
    var n := t.owner[id];
    var cs := t.children[n];
    var paths: seq<string> := [];
    for i := 0 to |cs|
      invariant |paths| == i
      invariant forall k :: 0 <= k < i ==> paths[k] == JoinPath(t.PathNames(n) + [t.names[cs[k]]])
    {
      t.ChildFacts(n, i);
      var p := t.ObjectPath(cs[i]);
      paths := paths + [p];
    }
    r := Ok(paths);
  }
}
