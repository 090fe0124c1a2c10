/** The bus of `dbus.js`: an object tree whose root object is the bus's own, a driver
    connection, and a map of signal listeners. `handleMethodCall` routes an incoming call to
    an object, one of its interfaces and a declared method, and answers with an error for an
    unknown object or interface; `handleSignal` hands `PropertiesChanged` signals to the
    listeners whose path is a prefix of the signal's; `attach` puts an object at a path;
    `listen` and `watch` ask the bus daemon for matching signals. Interface objects are
    values in a table indexed by their identity; handlers are outside the model: what they
    answer is a parameter of `Answer`, and a listener called is recorded in `fired`. */
module Bus {
  import opened Wrappers
  import opened JsStrings
  import opened DBusTypes
  import opened Framing
  import opened Driver
  import opened NodePath
  import opened ObjectTree
  import opened Interfaces
  import Properties

  const UnknownObject: string := "org.freedesktop.DBus.Error.UnknownObject"
  const UnknownInterface: string := "org.freedesktop.DBus.Error.UnknownInterface"

  /** Every interface of every object is in the table. */
  predicate Covers(ifaces: seq<seq<nat>>, table: map<nat, Iface>)
  {
    forall x, k :: 0 <= x < |ifaces| && 0 <= k < |ifaces[x]| ==> ifaces[x][k] in table
  }

  /** `{ flags: { noReply: true }, destination: m.sender, replySerial: m.serial }`: the
      start of every answer to `m`. */
  function Answering(m: Message): Message
  {
    Bare("", Flags(true, false, false), JUndefined, JUndefined).(destination := m.sender, replySerial := m.serial)
  }

  /** `m.signature || ''`. */
  function CallSignature(m: Message): Js
  {
    if Truthy(m.signature) then m.signature else JStr("")
  }

  /** The arguments a handler is called with: the body's TYPE objects, or their values when
      the interface uses plain values. */
  datatype Args = TypeArgs(vs: seq<Value>) | JsArgs(js: seq<Js>)

  /** What `handleMethodCall` does with a call:
      - `Thrown`: the path is not a string, so splitting it throws;
      - `NoObject`, `NoInterface`: it sends the error message;
      - `Dropped`: the interface has no such function, the method is not declared, or the
        signature differs from the declared input signatures: nothing happens;
      - `Call`: the handler `member` of interface `iface` of object `obj` is called with
        `args`; `osig` is the declared output signature. */
  datatype Dispatch =
    | Thrown
    | NoObject(error: Message)
    | NoInterface(error: Message)
    | Dropped
    | Call(obj: nat, iface: nat, member: string, args: Args, osig: string, useJsType: bool)

  /** The checks `handleMethodCall` makes, in order. */
  function Dispatched(names: seq<string>, children: seq<seq<nat>>, ifaces: seq<seq<nat>>,
                      table: map<nat, Iface>, m: Message): (d: Dispatch)
    requires WellIndexed(names, children) && |names| > 0 && |ifaces| == |names| && Covers(ifaces, table)
    ensures d.Thrown? <==> !m.path.JStr?
    ensures m.path.JStr? ==> (d.NoObject? <==> Route(names, children, 0, Names(m.path.s)).None?)
    ensures d.NoObject? ==> d.error == Answering(m).(errorName := JStr(UnknownObject))
    ensures d.NoInterface? ==>
              && var obj := Route(names, children, 0, Names(m.path.s)).value;
              && (forall k :: 0 <= k < |ifaces[obj]| ==> JStr(table[ifaces[obj][k]].name) != m.iface)
              && d.error == Answering(m).(errorName := JStr(UnknownInterface), signature := JStr("s"),
                                          body := Some([Text('s', JsText(m.iface) + " not found")]))
    ensures d.Call? ==>
              && m.path.JStr? && Route(names, children, 0, Names(m.path.s)) == Some(d.obj)
              && d.iface in ifaces[d.obj] && d.iface in table && JStr(table[d.iface].name) == m.iface
              && m.member == JStr(d.member) && d.member in table[d.iface].handlers
              && d.member in table[d.iface].definition.methods
              && JStr(Concat(Signatures(table[d.iface].definition.methods[d.member], "in"))) == CallSignature(m)
              && d.osig == Concat(Signatures(table[d.iface].definition.methods[d.member], "out"))
              && d.useJsType == table[d.iface].useJsType
              && var body := if m.body.Some? then m.body.value else [];
                 d.args == if d.useJsType then JsArgs(EvalAll(body)) else TypeArgs(body)
  {
    if !m.path.JStr? then Thrown
    else
      var obj := Route(names, children, 0, Names(m.path.s));
      if obj.None? then NoObject(Answering(m).(errorName := JStr(UnknownObject)))
      else
        var ids := ifaces[obj.value];
        var k := FindByName(ids, table, m.iface);
        if k.None? then
          NoInterface(Answering(m).(errorName := JStr(UnknownInterface), signature := JStr("s"),
                                    body := Some([Text('s', JsText(m.iface) + " not found")])))
        else
          var iface := table[ids[k.value]];
          if JsText(m.member) !in iface.handlers || !m.member.JStr? then Dropped
          else if m.member.s !in iface.definition.methods then Dropped
          else
            var sigs := iface.definition.methods[m.member.s];
            if JStr(Concat(Signatures(sigs, "in"))) != CallSignature(m) then Dropped
            else
              var body := if m.body.Some? then m.body.value else [];
              var args := if iface.useJsType then JsArgs(EvalAll(body)) else TypeArgs(body);
              Call(obj.value, ids[k.value], m.member.s, args, Concat(Signatures(sigs, "out")), iface.useJsType)
  }

  /** A call is handed to its handler exactly when every check passes: the path leads to an
      object that has an interface of that name, the interface has a function of that name
      declared as a method, and the call's signature is the declared input signatures. */
  lemma DispatchAccepts(names: seq<string>, children: seq<seq<nat>>, ifaces: seq<seq<nat>>,
                        table: map<nat, Iface>, m: Message, obj: nat, k: nat)
    requires WellIndexed(names, children) && |names| > 0 && |ifaces| == |names| && Covers(ifaces, table)
    requires m.path.JStr? && Route(names, children, 0, Names(m.path.s)) == Some(obj)
    requires k < |ifaces[obj]| && JStr(table[ifaces[obj][k]].name) == m.iface
    requires forall j :: 0 <= j < k ==> JStr(table[ifaces[obj][j]].name) != m.iface
    requires m.member.JStr? && m.member.s in table[ifaces[obj][k]].handlers
    requires m.member.s in table[ifaces[obj][k]].definition.methods
    requires JStr(Concat(Signatures(table[ifaces[obj][k]].definition.methods[m.member.s], "in"))) == CallSignature(m)
    ensures Dispatched(names, children, ifaces, table, m).Call?
    ensures Dispatched(names, children, ifaces, table, m).iface == ifaces[obj][k]
  {
    assert FindByName(ifaces[obj], table, m.iface) == Some(k) by {
      var r := FindByName(ifaces[obj], table, m.iface);
      assert r.Some?;
      if r.value < k {
      } else if r.value > k {
      }
    }
  }

  /** What a handler passes its callback: a plain value for an interface that uses plain
      values, a TYPE object otherwise. */
  datatype Output = JsOut(j: Js) | TypeOut(v: Value)

  /** The reply the callback sends for a successful call, or the error it throws: the
      output signature and the output, built as a TYPE of that signature from a plain value,
      are added only when the signature is not empty. Formatting the log line reads the
      first argument of a call that carries a body. */
  function ReplyOf(m: Message, d: Dispatch, out: Output): (r: Result<Message>)
    requires d.Call? && (d.useJsType <==> out.JsOut?)
    ensures r.Ok? ==> r.value.destination == m.sender && r.value.replySerial == m.serial
    ensures r.Ok? ==> r.value.flags == Some(Flags(true, false, false))
    ensures r.Ok? ==> (r.value.body.None? <==> d.osig == "")
    ensures r.Ok? && d.osig != "" ==> r.value.signature == JStr(d.osig) && |r.value.body.value| == 1
    ensures r.Ok? && d.osig != "" && !d.useJsType ==> r.value.body == Some([out.v])
    ensures r.Ok? && d.osig != "" && d.useJsType ==>
              New(d.osig, out.j).Ok? && r.value.body == Some([New(d.osig, out.j).value])
    ensures r.Err? <==> (d.osig != "" && d.useJsType && New(d.osig, out.j).Err?) ||
                        (m.body.Some? && m.body.value == [])
  {
    var sig := d.osig;
    var body :- if sig == "" then Ok(None)
                else if d.useJsType then (var v :- New(sig, out.j); Ok(Some([v])))
                else Ok(Some([out.v]));
    var rm := if sig == "" then Answering(m) else Answering(m).(signature := JStr(sig), body := body);
    if m.body.Some? && m.body.value == [] then Err("Cannot read property 'eval' of undefined")
    else Ok(rm)
  }

  // ---------------------------------------------------------------------------------------
  // Signals

  /** The event object a `PropertiesChanged` signal gives its listeners. */
  datatype Notice = Notice(path: Js, iface: Js, changed: map<string, Js>, invalidated: Js)

  /** A listener `f`, registered under the identity `key` of its options object. */
  datatype Listener = Listener(key: nat, sender: string, path: string, f: nat)

  /** A listener called with an event. */
  datatype Fired = Fired(f: nat, notice: Notice)

  /** `String(k)`, the property key `{ [k]: ... }` makes of a value. */
  function KeyText(j: Js): string
  {
    match j
    case JArr(items) => Join(seq(|items|, i requires 0 <= i < |items| => if items[i].JUndefined? then "" else KeyText(items[i])), ",")
    case _ => JsText(j)
  }

  /** `([k, v]) => ...`: the key and `v[1]` of one changed entry, or the error destructuring
      throws. Only a list or a string can be destructured; `v[1]` of `undefined` throws. */
  function EntryPair(item: Js): Result<(string, Js)>
  {
    if !item.JArr? && !item.JStr? then Err("entry is not iterable")
    else
      var k := if item.JArr? then (if |item.items| > 0 then item.items[0] else JUndefined)
               else (if |item.s| > 0 then JStr([item.s[0]]) else JUndefined);
      var v := if item.JArr? then (if |item.items| > 1 then item.items[1] else JUndefined)
               else (if |item.s| > 1 then JStr([item.s[1]]) else JUndefined);
      if v.JUndefined? then Err("Cannot read property '1' of undefined")
      else
        var second := if v.JArr? then (if |v.items| > 1 then v.items[1] else JUndefined)
                      else if v.JStr? then (if |v.s| > 1 then JStr([v.s[1]]) else JUndefined)
                      else JUndefined;
        Ok((KeyText(k), second))
  }

  /** `reduce((o, [k, v]) => Object.assign(o, { [k]: v[1] }), {})`: a later key replaces an
      earlier one. */
  function Changed(items: seq<Js>): (r: Result<map<string, Js>>)
    ensures r.Ok? ==> forall k :: 0 <= k < |items| ==> EntryPair(items[k]).Ok? && EntryPair(items[k]).value.0 in r.value
    decreases |items|
  {
    if items == [] then Ok(map[])
    else
      var o :- Changed(items[..|items| - 1]);
      var kv :- EntryPair(items[|items| - 1]);
      Ok(o[kv.0 := kv.1])
  }

  /** The event of a `PropertiesChanged` signal, `None` for any other signal, or the error
      reading a body of the wrong shape throws. */
  function NoticeOf(m: Message): (r: Result<Option<Notice>>)
    ensures r.Ok? && r.value.Some? ==>
              && m.iface == JStr(PropertiesName) && m.member == JStr("PropertiesChanged")
              && m.body.Some? && |m.body.value| >= 3
              && r.value.value.path == m.path
              && r.value.value.iface == Eval(m.body.value[0])
              && r.value.value.invalidated == Eval(m.body.value[2])
    ensures m.iface != JStr(PropertiesName) || m.member != JStr("PropertiesChanged") ==> r == Ok(None)
  {
    if m.iface != JStr(PropertiesName) || m.member != JStr("PropertiesChanged") then Ok(None)
    else if m.body.None? || |m.body.value| < 1 then Err("Cannot read property 'eval' of undefined")
    else
      var iface := Eval(m.body.value[0]);
      if |m.body.value| < 2 then Err("Cannot read property 'eval' of undefined")
      else
        var entries := Eval(m.body.value[1]);
        if !entries.JArr? then Err("reduce is not a function")
        else
          var changed :- Changed(entries.items);
          if |m.body.value| < 3 then Err("Cannot read property 'eval' of undefined")
          else Ok(Some(Notice(m.path, iface, changed, Eval(m.body.value[2]))))
  }

  /** The `PropertiesChanged` signal sent from the object at `path` with `body`. */
  function ChangedSignal(path: string, body: seq<Value>): Message
  {
    Message("", None, JUndefined, JUndefined, JStr(path), JStr(PropertiesName), JStr("PropertiesChanged"),
            JUndefined, JUndefined, JUndefined, JUndefined, JStr("sa{sv}as"), JUndefined, Some(body))
  }

  /** `PropertiesChanged` has a signal to send. */
  predicate Emits(iface: Iface, cprops: seq<string>, iprops: seq<string>)
  {
    Properties.ChangedBody(iface, cprops, iprops).Ok? && Properties.ChangedBody(iface, cprops, iprops).value.Some?
  }

  /** Every property has a value that fits its declared signature. */
  predicate Fits(nss: seq<PropDecl>, iface: Iface)
  {
    forall k :: 0 <= k < |nss| ==> New(nss[k].sig, Property(iface, nss[k].name)).Ok?
  }

  /** The value a listener reads for a property: its value made a TYPE and evaluated. */
  function Reading(p: PropDecl, iface: Iface): Js
    requires New(p.sig, Property(iface, p.name)).Ok?
  {
    Eval(New(p.sig, Property(iface, p.name)).value)
  }

  /** The changed properties a listener receives, entry by entry. */
  function ChangedMap(nss: seq<PropDecl>, iface: Iface): map<string, Js>
    requires Fits(nss, iface)
    decreases |nss|
  {
    if nss == [] then map[]
    else
      var n := |nss| - 1;
      assert forall k :: 0 <= k < n ==> nss[..n][k] == nss[k];
      ChangedMap(nss[..n], iface)[nss[n].name := Reading(nss[n], iface)]
  }

  lemma ChangedMapStep(nss: seq<PropDecl>, iface: Iface)
    requires Fits(nss, iface) && nss != []
    ensures Fits(nss[..|nss| - 1], iface)
    ensures forall k :: 0 <= k < |nss| - 1 ==> nss[..|nss| - 1][k] == nss[k]
    ensures ChangedMap(nss, iface) ==
              ChangedMap(nss[..|nss| - 1], iface)[nss[|nss| - 1].name := Reading(nss[|nss| - 1], iface)]
  {
  }

  /** Every declared name is in the map. */
  lemma {:induction false} ChangedHas(nss: seq<PropDecl>, iface: Iface)
    requires Fits(nss, iface)
    ensures forall k :: 0 <= k < |nss| ==> nss[k].name in ChangedMap(nss, iface)
    decreases |nss|
  {
    if nss != [] {
      ChangedMapStep(nss, iface);
      ChangedHas(nss[..|nss| - 1], iface);
    }
  }

  /** Only declared names are in the map. */
  lemma {:induction false} ChangedOnly(nss: seq<PropDecl>, iface: Iface, name: string)
    requires Fits(nss, iface) && name in ChangedMap(nss, iface)
    ensures exists k :: 0 <= k < |nss| && nss[k].name == name
    decreases |nss|
  {
    var n := |nss| - 1;
    ChangedMapStep(nss, iface);
    if nss[n].name != name {
      ChangedOnly(nss[..n], iface, name);
      var k :| 0 <= k < n && nss[..n][k].name == name;
      assert nss[k].name == name;
    }
  }

  /** Each name holds the reading of its last entry: a later entry replaces an earlier one
      of the same name. */
  lemma {:induction false} ChangedLast(nss: seq<PropDecl>, iface: Iface, k: nat)
    requires Fits(nss, iface) && k < |nss|
    requires forall j :: k < j < |nss| ==> nss[j].name != nss[k].name
    ensures nss[k].name in ChangedMap(nss, iface)
    ensures ChangedMap(nss, iface)[nss[k].name] == Reading(nss[k], iface)
    decreases |nss|
  {
    var n := |nss| - 1;
    ChangedMapStep(nss, iface);
    if k < n {
      ChangedLast(nss[..n], iface, k);
    }
  }

  lemma {:induction false} EvalAllAt(vs: seq<Value>)
    ensures forall i :: 0 <= i < |vs| ==> EvalAll(vs)[i] == Eval(vs[i])
  {
    if vs != [] {
      EvalAllAt(vs[1..]);
    }
  }

  /** A listener reads a property entry back as its name and its value. */
  lemma EntryRead(name: string, v: Value)
    ensures EntryPair(Eval(Properties.PropEntry(name, v))) == Ok((name, Eval(v)))
  {
    var e := Properties.PropEntry(name, v);
    var inner := [Text('g', Sig(v)), v];
    EvalAllAt(e.elems);
    EvalAllAt(inner);
    assert EvalAll(inner) == [JStr(Sig(v)), Eval(v)];
    assert Eval(e) == JArr([JStr(name), JArr([JStr(Sig(v)), Eval(v)])]);
    assert KeyText(JStr(name)) == name;
  }

  /** Reading the entries of the changed properties gives their map. */
  lemma {:induction false} ChangedRead(nss: seq<PropDecl>, iface: Iface, es: seq<Value>)
    requires |es| == |nss| && Fits(nss, iface)
    requires forall k :: 0 <= k < |nss| ==>
               es[k] == Properties.PropEntry(nss[k].name, New(nss[k].sig, Property(iface, nss[k].name)).value)
    ensures Changed(EvalAll(es)) == Ok(ChangedMap(nss, iface))
    decreases |nss|
  {
    if nss != [] {
      var n := |nss| - 1;
      ChangedRead(nss[..n], iface, es[..n]);
      EvalPrefix(es, n);
      EntryRead(nss[n].name, New(nss[n].sig, Property(iface, nss[n].name)).value);
    }
  }

  lemma EvalPrefix(es: seq<Value>, n: nat)
    requires n < |es|
    ensures EvalAll(es)[..n] == EvalAll(es[..n]) && EvalAll(es)[n] == Eval(es[n])
  {
    EvalAllAt(es);
    EvalAllAt(es[..n]);
  }

  /** What a listener receives from a `PropertiesChanged` signal with a three-part body. */
  lemma NoticeOfChanged(path: string, b0: Value, b1: Value, b2: Value)
    requires Eval(b1).JArr? && Changed(Eval(b1).items).Ok?
    ensures NoticeOf(ChangedSignal(path, [b0, b1, b2])) ==
              Ok(Some(Notice(JStr(path), Eval(b0), Changed(Eval(b1).items).value, Eval(b2))))
  {
  }

  /** A signal made of an interface name, the entries of changed properties and the
      invalidated names is read back as the name, the changed map and the names. */
  lemma ChangedReceived(path: string, name: string, nss: seq<PropDecl>, iface: Iface, es: seq<Value>, iprops: seq<string>)
    requires |es| == |nss| && Fits(nss, iface)
    requires forall k :: 0 <= k < |nss| ==>
               es[k] == Properties.PropEntry(nss[k].name, New(nss[k].sig, Property(iface, nss[k].name)).value)
    ensures NoticeOf(ChangedSignal(path, [Text('s', name), Array("{sv}", es), Properties.Invalidated(iprops)])) ==
              Ok(Some(Notice(JStr(path), JStr(name), ChangedMap(nss, iface),
                             JArr(seq(|iprops|, k requires 0 <= k < |iprops| => JStr(iprops[k]))))))
  {
    ChangedRead(nss, iface, es);
    assert Eval(Array("{sv}", es)) == JArr(EvalAll(es));
    NoticeOfChanged(path, Text('s', name), Array("{sv}", es), Properties.Invalidated(iprops));
  }

  /** A signal `PropertiesChanged` sends has no invalidated names (any would have made it
      throw), and it reaches a listener as the object's path, the interface's name, the
      changed properties with their values and the empty list of invalidated names. */
  lemma ChangedRoundTrip(path: string, iface: Iface, cprops: seq<string>, iprops: seq<string>)
    requires Emits(iface, cprops, iprops)
    ensures iprops == []
    ensures Fits(Properties.Declared(cprops, iface.definition.properties), iface)
    ensures NoticeOf(ChangedSignal(path, Properties.ChangedBody(iface, cprops, iprops).value.value)) ==
              Ok(Some(Notice(JStr(path), JStr(iface.name),
                             ChangedMap(Properties.Declared(cprops, iface.definition.properties), iface),
                             JArr([]))))
  {
    var nss := Properties.Declared(cprops, iface.definition.properties);
    var es := Properties.ChangedEntries(nss, iface).value;
    var body := Properties.ChangedBody(iface, cprops, iprops).value.value;
    assert body == [Text('s', iface.name), Array("{sv}", es), Properties.Invalidated(iprops)];
    ChangedReceived(path, iface.name, nss, iface, es, iprops);
  }

  /** The listener test as written: the listener's path, split at `/`, is a prefix of the
      signal's path split at `/`. */
  predicate SegmentPrefix(kpath: string, opath: string)
  {
    var kp := Split(kpath, '/');
    var op := Split(opath, '/');
    |op| >= |kp| && op[..|kp|] == kp
  }

  /** For object paths made of plain names the test is the namespace relation: a listener on
      `/a/b` hears `/a/b` and every path below it, and nothing else. */
  lemma ListenerNamespace(a: seq<string>, b: seq<string>)
    requires a != [] && b != [] && AllPlain(a) && AllPlain(b)
    ensures SegmentPrefix(Slashed(a), Slashed(b)) <==> a <= b
  {
    SplitSlashed(a);
    SplitSlashed(b);
    var kp, op := [""] + a, [""] + b;
    if |op| >= |kp| && op[..|kp|] == kp {
      assert forall i :: 0 <= i < |a| ==> b[i] == op[i + 1] == kp[i + 1] == a[i];
    }
    if a <= b {
      assert forall i :: 0 <= i < |kp| ==> op[i] == kp[i];
    }
  }

  /** `/` splits into two empty pieces, so a listener on `/` hears only signals from `/`
      itself. */
  lemma RootListener(b: seq<string>)
    requires AllPlain(b)
    ensures SegmentPrefix("/", Slashed(b)) <==> b == []
  {
    assert Split("/", '/') == ["", ""];
    if b != [] {
      SplitSlashed(b);
      assert Split(Slashed(b), '/')[1] == b[0] != "";
    } else {
      assert Slashed(b) == "/";
    }
  }

  /** The listeners an event goes to, in the map's order. */
  function Deliveries(ls: seq<Listener>, o: Notice): (r: seq<Fired>)
    requires o.path.JStr?
    ensures |r| <= |ls|
    ensures forall i :: 0 <= i < |r| ==> r[i].notice == o
    decreases |ls|
  {
    if ls == [] then []
    else
      var pre := Deliveries(ls[..|ls| - 1], o);
      var l := ls[|ls| - 1];
      if SegmentPrefix(l.path, o.path.s) then pre + [Fired(l.f, o)] else pre
  }

  /** One more listener delivers to the end of what the ones before it delivered. */
  lemma DeliveriesStep(ls: seq<Listener>, i: nat, o: Notice)
    requires o.path.JStr? && i < |ls|
    ensures Deliveries(ls[..i + 1], o) ==
              Deliveries(ls[..i], o) + (if SegmentPrefix(ls[i].path, o.path.s) then [Fired(ls[i].f, o)] else [])
  {
    assert ls[..i + 1][..i] == ls[..i];
  }

  /** The listeners are keyed by distinct option objects. */
  predicate Keyed(ls: seq<Listener>)
  {
    forall i, j :: 0 <= i < j < |ls| ==> ls[i].key != ls[j].key
  }

  /** The position of the listener registered under `key`, if any. */
  function KeyIndex(ls: seq<Listener>, key: nat): (r: Option<nat>)
    ensures r.Some? ==> r.value < |ls| && ls[r.value].key == key
    ensures r.None? ==> forall i :: 0 <= i < |ls| ==> ls[i].key != key
  {
    if ls == [] then None
    else if ls[|ls| - 1].key == key then Some(|ls| - 1)
    else KeyIndex(ls[..|ls| - 1], key)
  }

  /** `listenerMap.set(opts, listener)`: replaces the listener in place when the options
      object is already a key, and otherwise appends it. */
  function SetListener(ls: seq<Listener>, l: Listener): (r: seq<Listener>)
    requires Keyed(ls)
    ensures Keyed(r) && l in r
    ensures (exists i :: 0 <= i < |ls| && ls[i].key == l.key) ==> |r| == |ls|
    ensures (forall i :: 0 <= i < |ls| ==> ls[i].key != l.key) ==> r == ls + [l]
    ensures forall i :: 0 <= i < |ls| && ls[i].key != l.key ==> r[i] == ls[i]
  {
    var k := KeyIndex(ls, l.key);
    if k.Some? then
      var r := ls[k.value := l];
      assert r[k.value] == l;
      r
    else ls + [l]
  }

  /** The match rule `listen` and `watch` ask the bus daemon for. */
  function MatchRule(sender: string, path: string): string
  {
    "type='signal',sender='" + sender + "',path_namespace='" + path + "'"
  }

  /** The `AddMatch` call to the bus daemon. */
  function AddMatch(sender: string, path: string): Message
  {
    Message("", None, JUndefined, JUndefined, JStr("/org/freedesktop/DBus"), JStr("org.freedesktop.DBus"),
            JStr("AddMatch"), JUndefined, JUndefined, JStr("org.freedesktop.DBus"), JUndefined, JStr("s"),
            JUndefined, Some([Text('s', MatchRule(sender, path))]))
  }

  /** The callback `invoke` gets when it is given none. */
  const NoCallback: nat := 0

  // ---------------------------------------------------------------------------------------
  // Attaching

  /** Naming a detached object and appending it to the children of the object at `init`,
      when that object has no child of the name yet, puts it at `init + [last]`. */
  lemma RouteAttached(names: seq<string>, children: seq<seq<nat>>, init: seq<string>, p: nat, d: nat, last: string)
    requires WellIndexed(names, children) && p < |names| && d < |names|
    requires Route(names, children, 0, init) == Some(p) && FindNamed(names, children[p], last).None?
    requires forall x, i :: 0 <= x < |children| && 0 <= i < |children[x]| ==> children[x][i] != d
    ensures WellIndexed(names[d := last], children[p := children[p] + [d]])
    ensures Route(names[d := last], children[p := children[p] + [d]], 0, init + [last]) == Some(d)
  {
    var names' := names[d := last];
    var children' := children[p := children[p] + [d]];
    RouteAfterRename(names, children, d, last, 0, init);
    assert forall j :: 0 <= j < |children[p]| ==> names'[children[p][j]] == names[children[p][j]];
    FindNamedSame(names, names', children[p], last);
    RouteAfterAppend(names', children, p, d, 0, init);
    FindNamedAt(names', children'[p], last, |children[p]|);
    assert Route(names', children', p, [last]) == Some(d);
    RouteAppend(names', children', 0, init, [last]);
  }

  /** No child list holds a detached object. */
  lemma DetachedUnlisted(t: ObjectTree.Tree, d: nat)
    requires t.Valid() && d < |t.names| && t.parent[d] == -1
    ensures forall x, i :: 0 <= x < |t.children| && 0 <= i < |t.children[x]| ==> t.children[x][i] != d
  {
    forall x, i | 0 <= x < |t.children| && 0 <= i < |t.children[x]|
      ensures t.children[x][i] != d
    {
      assert t.parent[t.children[x][i]] == x;
    }
  }

  /** The first names of a path lead to an object with no child named by the last one when
      the whole path leads nowhere. */
  lemma LastMissing(names: seq<string>, children: seq<seq<nat>>, ns: seq<string>)
    requires WellIndexed(names, children) && 0 < |names| && ns != []
    requires Route(names, children, 0, ns).None? && Route(names, children, 0, ns[..|ns| - 1]).Some?
    ensures FindNamed(names, children[Route(names, children, 0, ns[..|ns| - 1]).value], ns[|ns| - 1]).None?
  {
    RouteAppend(names, children, 0, ns[..|ns| - 1], [ns[|ns| - 1]]);
    assert ns[..|ns| - 1] + [ns[|ns| - 1]] == ns;
  }

  class DBus {
    const tree: ObjectTree.Tree
    const conn: Connection
    var listeners: seq<Listener>
    /** The listener calls made, oldest first. */
    var fired: seq<Fired>

    ghost predicate Valid()
      reads this, tree, conn
    {
      tree.Valid() && conn.Valid() && Keyed(listeners)
    }

    constructor ()
      ensures Valid() && fresh(tree) && fresh(conn)
      ensures tree.names == [""] && tree.children == [[]] && tree.ifaces == [[]]
      ensures conn.serial == 1 && conn.sent == [] && listeners == [] && fired == []
    {
      tree := new ObjectTree.Tree();
      conn := new Connection();
      listeners := [];
      fired := [];
    }

    /** `handleMethodCall(m)` up to calling the handler: sends the error for an unknown
        object or interface. */
    method HandleMethodCall(m: Message, table: map<nat, Iface>) returns (d: Dispatch, r: Result<()>)
      requires Valid() && Covers(tree.ifaces, table)
      modifies conn
      ensures Valid()
      ensures d == Dispatched(tree.names, tree.children, tree.ifaces, table, m)
      ensures d.NoObject? || d.NoInterface? ==>
                && conn.serial == old(conn.serial) + 1 && conn.callMap == old(conn.callMap)
                && (r.Ok? <==> Wired(d.error.(msgType := "ERROR"), old(conn.serial), conn.myName).Ok?)
                && conn.sent == old(conn.sent) + (if r.Ok? then [Wired(d.error.(msgType := "ERROR"), old(conn.serial), conn.myName).value] else [])
      ensures !d.NoObject? && !d.NoInterface? ==> r == Ok(()) && unchanged(conn)
    {
      tree.ValidIndexed();
      d := Dispatched(tree.names, tree.children, tree.ifaces, table, m);
      if d.NoObject? || d.NoInterface? {
        r := conn.SendAs(d.error, "ERROR");
      } else {
        r := Ok(());
      }
    }

    /** The handler's callback: nothing for an error (`None`); otherwise the reply. */
    method Answer(m: Message, d: Dispatch, out: Option<Output>) returns (r: Result<()>)
      requires Valid() && d.Call? && (out.Some? ==> (d.useJsType <==> out.value.JsOut?))
      modifies conn
      ensures Valid()
      ensures out.None? ==> r == Ok(()) && unchanged(conn)
      ensures out.Some? && ReplyOf(m, d, out.value).Err? ==> r == Err(ReplyOf(m, d, out.value).msg) && unchanged(conn)
      ensures out.Some? && ReplyOf(m, d, out.value).Ok? ==>
                && var rm := ReplyOf(m, d, out.value).value.(msgType := "METHOD_RETURN");
                && conn.serial == old(conn.serial) + 1 && conn.callMap == old(conn.callMap)
                && (r.Ok? <==> Wired(rm, old(conn.serial), conn.myName).Ok?)
                && conn.sent == old(conn.sent) + (if r.Ok? then [Wired(rm, old(conn.serial), conn.myName).value] else [])
    {
      if out.None? {
        return Ok(());
      }
      var rm := ReplyOf(m, d, out.value);
      if rm.Err? {
        return Err(rm.msg);
      }
      r := conn.SendAs(rm.value, "METHOD_RETURN");
    }

    /** `handleSignal(m)`: the event of a `PropertiesChanged` signal goes to every listener
        whose path is a prefix of the signal's, in the map's order. Splitting a path that is
        not a string throws at the first listener. */
    method HandleSignal(m: Message) returns (r: Result<()>)
      requires Valid()
      modifies this
      ensures Valid() && listeners == old(listeners)
      ensures NoticeOf(m).Err? ==> r == Err(NoticeOf(m).msg) && fired == old(fired)
      ensures NoticeOf(m) == Ok(None) ==> r == Ok(()) && fired == old(fired)
      ensures NoticeOf(m).Ok? && NoticeOf(m).value.Some? && NoticeOf(m).value.value.path.JStr? ==>
                r == Ok(()) && fired == old(fired) + Deliveries(listeners, NoticeOf(m).value.value)
      ensures NoticeOf(m).Ok? && NoticeOf(m).value.Some? && !NoticeOf(m).value.value.path.JStr? ==>
                fired == old(fired) && (r.Err? <==> listeners != [])
    {
      var o := NoticeOf(m);
      if o.Err? {
        return Err(o.msg);
      }
      if o.value.None? {
        return Ok(());
      }
      var notice := o.value.value;
      if !notice.path.JStr? {
        if listeners != [] {
          return Err("split is not a function");
        }
        return Ok(());
      }
      for i := 0 to |listeners|
        invariant listeners == old(listeners)
        invariant fired == old(fired) + Deliveries(listeners[..i], notice)
      {
        DeliveriesStep(listeners, i, notice);
        var l := listeners[i];
        if SegmentPrefix(l.path, notice.path.s) {
          fired := fired + [Fired(l.f, notice)];
        }
      }
      assert listeners[..|listeners|] == listeners;
      r := Ok(());
    }

    /** `PropertiesChanged(iface, cprops, iprops)` of the Properties interface on object `n`:
        nothing is sent when no changed property is declared; otherwise the object must be
        mounted (its `dbus` is `null` and reading `driver` throws otherwise), and the signal
        from the object's path is sent. */
    method PropertiesChanged(n: nat, iface: Iface, cprops: seq<string>, iprops: seq<string>) returns (r: Result<()>)
      requires Valid() && n < |tree.names|
      modifies conn
      ensures Valid()
      ensures Properties.ChangedBody(iface, cprops, iprops).Err? ==>
                r == Err(Properties.ChangedBody(iface, cprops, iprops).msg) && unchanged(conn)
      ensures Properties.ChangedBody(iface, cprops, iprops) == Ok(None) ==> r == Ok(()) && unchanged(conn)
      ensures Emits(iface, cprops, iprops) && tree.root[n] != 0 ==>
                r == Err("Cannot read property 'driver' of null") && unchanged(conn)
      ensures Emits(iface, cprops, iprops) && tree.root[n] == 0 ==>
                && var sm := ChangedSignal(JoinPath(tree.PathNames(n)), Properties.ChangedBody(iface, cprops, iprops).value.value).(msgType := "SIGNAL");
                && conn.serial == old(conn.serial) + 1 && conn.callMap == old(conn.callMap)
                && (r.Ok? <==> Wired(sm, old(conn.serial), conn.myName).Ok?)
                && conn.sent == old(conn.sent) + (if r.Ok? then [Wired(sm, old(conn.serial), conn.myName).value] else [])
    {
      var body := Properties.ChangedBody(iface, cprops, iprops);
      if body.Err? {
        return Err(body.msg);
      }
      if body.value.None? {
        return Ok(());
      }
      r := EmitChanged(n, body.value.value);
    }

    /** `this.dbus.driver.signal(...)` from object `n`: throws when `n` is not mounted. */
    method EmitChanged(n: nat, body: seq<Value>) returns (r: Result<()>)
      requires Valid() && n < |tree.names|
      modifies conn
      ensures Valid()
      ensures tree.root[n] != 0 ==> r == Err("Cannot read property 'driver' of null") && unchanged(conn)
      ensures tree.root[n] == 0 ==>
                && var sm := ChangedSignal(JoinPath(tree.PathNames(n)), body).(msgType := "SIGNAL");
                && conn.serial == old(conn.serial) + 1 && conn.callMap == old(conn.callMap)
                && (r.Ok? <==> Wired(sm, old(conn.serial), conn.myName).Ok?)
                && conn.sent == old(conn.sent) + (if r.Ok? then [Wired(sm, old(conn.serial), conn.myName).value] else [])
    {
      var mounted := tree.IsMounted(n);
      if !mounted {
        return Err("Cannot read property 'driver' of null");
      }
      var path := tree.ObjectPath(n);
      r := conn.SendAs(ChangedSignal(path, body), "SIGNAL");
    }

    /** `listen(opts, listener)`: records the listener under its options object, then asks
        the bus daemon for the signals of `opts.sender` under `opts.path`. */
    method Listen(key: nat, sender: string, path: string, f: nat) returns (r: Result<()>)
      requires Valid()
      modifies this, conn
      ensures Valid() && fired == old(fired)
      ensures listeners == SetListener(old(listeners), Listener(key, sender, path, f))
      ensures conn.serial == old(conn.serial) + 1
      ensures conn.callMap == if r.Ok? then old(conn.callMap)[old(conn.serial) := NoCallback] else old(conn.callMap)
      ensures r.Ok? <==> Wired(AddMatch(sender, path).(msgType := "METHOD_CALL"), old(conn.serial), conn.myName).Ok?
      ensures r.Ok? ==> conn.sent == old(conn.sent) + [Wired(AddMatch(sender, path).(msgType := "METHOD_CALL"), old(conn.serial), conn.myName).value]
    {
      listeners := SetListener(listeners, Listener(key, sender, path, f));
      r := conn.Invoke(AddMatch(sender, path), NoCallback);
    }

    /** `watch(opts, callback)`: asks the bus daemon for the signals of `opts.sender` under
        `opts.path`; the callback gets the daemon's answer. */
    method Watch(sender: string, path: string, callback: nat) returns (r: Result<()>)
      requires Valid()
      modifies conn
      ensures Valid()
      ensures conn.serial == old(conn.serial) + 1
      ensures conn.callMap == if r.Ok? then old(conn.callMap)[old(conn.serial) := callback] else old(conn.callMap)
      ensures r.Ok? <==> Wired(AddMatch(sender, path).(msgType := "METHOD_CALL"), old(conn.serial), conn.myName).Ok?
      ensures r.Ok? ==> conn.sent == old(conn.sent) + [Wired(AddMatch(sender, path).(msgType := "METHOD_CALL"), old(conn.serial), conn.myName).value]
    {
      r := conn.Invoke(AddMatch(sender, path), callback);
    }

    /** `attach(dpath, dobj)` of a detached object `d`: the path must be normalised, absolute
        and free; the objects on the way are made as needed, `d` takes the last name and
        becomes the last child of the object above it. Afterwards the path leads to `d`, and
        `d`'s object path is the path without a trailing separator. `r` lists the objects
        whose `mounted` handler runs. */
    method Attach(dpath: string, d: nat) returns (r: Result<seq<nat>>)
      requires Valid() && d < |tree.names| && d != 0 && tree.parent[d] == -1
      modifies tree
      ensures Valid()
      ensures Normalize(dpath) != dpath ==> r == Err("not a normalized path") && unchanged(tree)
      ensures Normalize(dpath) == dpath && !IsAbsolute(dpath) ==> r == Err("not an absolute path") && unchanged(tree)
      ensures Normalize(dpath) == dpath && IsAbsolute(dpath) &&
              old(Route(tree.names, tree.children, 0, Names(dpath))).Some? ==>
                r == Err("dbus object exists") && unchanged(tree)
      ensures r.Ok? ==>
                && Normalize(dpath) == dpath && IsAbsolute(dpath) && Names(dpath) != []
                && WellIndexed(tree.names, tree.children)
                && Route(tree.names, tree.children, 0, Names(dpath)) == Some(d)
                && tree.PathNames(d) == Names(dpath)
                && JoinPath(tree.PathNames(d)) == Slashed(Names(dpath))
                && tree.names[d] == Basename(dpath)
                && r.value == tree.Visit(d)
      ensures r.Err? ==> unchanged(tree)
    {
      if Normalize(dpath) != dpath {
        return Err("not a normalized path");
      }
      if !IsAbsolute(dpath) {
        return Err("not an absolute path");
      }
      var ns := Names(dpath);
      tree.ValidIndexed();
      if Route(tree.names, tree.children, 0, ns).Some? {
        return Err("dbus object exists");
      }
      RootNames();
      NormalAbsolute(dpath);
      assert ns[..|ns| - 1] + [Basename(dpath)] == ns;
      r := Place(ns[..|ns| - 1], Basename(dpath), d);
      JoinPathPlain(ns);
    }

    /** The objects on the way to `init` made as needed, then `d` named `last` and attached
        to the object at `init`, which has no child of that name. */
    method Place(init: seq<string>, last: string, d: nat) returns (r: Result<seq<nat>>)
      requires Valid() && d < |tree.names| && d != 0 && tree.parent[d] == -1
      requires WellIndexed(tree.names, tree.children)
      requires Route(tree.names, tree.children, 0, init + [last]).None?
      ensures Valid() && r.Ok?
      ensures WellIndexed(tree.names, tree.children)
      ensures Route(tree.names, tree.children, 0, init + [last]) == Some(d)
      ensures tree.PathNames(d) == init + [last] && tree.names[d] == last
      ensures r.value == tree.Visit(d)
      modifies tree
    {
      ghost var before := Route(tree.names, tree.children, 0, init);
      if before.Some? {
        LastMissing(tree.names, tree.children, init + [last]);
        assert (init + [last])[..|init|] == init;
      }
      var p := tree.RouteMake(0, init);
      assert FindNamed(tree.names, tree.children[p], last).None?;
      var mounting := Hang(init, p, last, d);
      r := Ok(mounting);
    }

    /** `d` named `last` and attached as the last child of `p`, the object at `init` in the
        bus's tree, which has no child of that name. */
    method Hang(init: seq<string>, p: nat, last: string, d: nat) returns (mounting: seq<nat>)
      requires Valid() && d < |tree.names| && d != 0 && tree.parent[d] == -1
      requires p < |tree.names| && tree.root[p] == 0
      requires WellIndexed(tree.names, tree.children)
      requires Route(tree.names, tree.children, 0, init) == Some(p)
      requires FindNamed(tree.names, tree.children[p], last).None?
      ensures Valid()
      ensures WellIndexed(tree.names, tree.children)
      ensures Route(tree.names, tree.children, 0, init + [last]) == Some(d)
      ensures tree.PathNames(d) == init + [last] && tree.names[d] == last
      ensures mounting == tree.Visit(d)
      modifies tree
    {
      DetachedUnlisted(tree, d);
      RouteAttached(tree.names, tree.children, init, p, d, last);
      tree.SetName(d, last);
      mounting := tree.Attach(d, p);
      tree.RouteNames(0, init + [last]);
    }
  }
}
