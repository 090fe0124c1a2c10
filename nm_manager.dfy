/** The NetworkManager client object of `nm/NetworkManager.js`: the table of signal handlers
    by object path, the settings body `AddAndActivateConnection` sends, and the shaping of
    the `CheckConnectivity` and `ActiveConnections` replies. */
module NetworkManager {
  import opened Wrappers
  import opened Octets
  import opened DBusTypes
  import opened GattCharacteristic
  import ObjectTree

  // ---------------------------------------------------------------------------------------
  // Signal handlers
  // ---------------------------------------------------------------------------------------

  /** A callback, known by its identity: handlers are compared with `===`. */
  type Callback = nat

  /** The callbacks `handleSignal` calls, in order, for a signal from `path`. */
  function Handlers(h: map<string, seq<Callback>>, path: string): seq<Callback>
  {
    if path in h then h[path] else []
  }

  /** How often `cb` is registered under `path`. */
  function Count(h: map<string, seq<Callback>>, path: string, cb: Callback): nat
  {
    multiset(Handlers(h, path))[cb]
  }

  /** The table after `addSignalHandle(path, cb)`. */
  function Added(h: map<string, seq<Callback>>, path: string, cb: Callback): (h': map<string, seq<Callback>>)
    ensures Handlers(h', path) == Handlers(h, path) + [cb]
    ensures forall p :: p != path ==> Handlers(h', p) == Handlers(h, p)
    ensures h'.Keys == h.Keys + {path}
  {
    if path in h then h[path := h[path] + [cb]] else h[path := [cb]]
  }

  /** The table after `removeSignalHandle(path, cb)`. */
  function Removed(h: map<string, seq<Callback>>, path: string, cb: Callback): (h': map<string, seq<Callback>>)
    ensures h'.Keys == h.Keys
    ensures forall p :: p != path ==> Handlers(h', p) == Handlers(h, p)
  {
    if path in h && cb in h[path] then h[path := ObjectTree.RemoveFirst(h[path], cb)] else h
  }

  /** Removing drops the first registration of `cb` under `path` and keeps the others in
      order; without one it changes nothing. */
  lemma RemovedSpec(h: map<string, seq<Callback>>, path: string, cb: Callback)
    ensures var cs := Handlers(h, path);
            cb in cs ==> Handlers(Removed(h, path, cb), path) == cs[..ObjectTree.IndexOf(cs, cb)] + cs[ObjectTree.IndexOf(cs, cb) + 1..]
    ensures cb !in Handlers(h, path) ==> Removed(h, path, cb) == h
  {
    ObjectTree.RemoveFirstSpec(Handlers(h, path), cb);
  }

  /** Adding registers `cb` once more under `path`, and nothing else. */
  lemma AddedCount(h: map<string, seq<Callback>>, path: string, cb: Callback, p: string, c: Callback)
    ensures Count(Added(h, path, cb), p, c) == Count(h, p, c) + (if p == path && c == cb then 1 else 0)
  {
  }

  /** Removing takes one registration of `cb` under `path` away when there is one, and
      nothing else. */
  lemma RemovedCount(h: map<string, seq<Callback>>, path: string, cb: Callback, p: string, c: Callback)
    ensures Count(Removed(h, path, cb), p, c) ==
              if p == path && c == cb && Count(h, p, c) > 0 then Count(h, p, c) - 1 else Count(h, p, c)
  {
    var cs := Handlers(h, path);
    if p == path && cb in cs {
      ObjectTree.RemoveFirstSpec(cs, cb);
      var k := ObjectTree.IndexOf(cs, cb);
      assert cs == cs[..k] + [cb] + cs[k + 1..];
    }
  }

  /** Adding a callback and removing it again gives every path its callbacks back. */
  lemma AddRemove(h: map<string, seq<Callback>>, path: string, cb: Callback, p: string)
    requires cb !in Handlers(h, path)
    ensures Handlers(Removed(Added(h, path, cb), path, cb), p) == Handlers(h, p)
  {
    if p == path {
      ObjectTree.RemoveAdded(Handlers(h, path), cb);
    }
  }

  /** The signal-handler table of the NetworkManager object (`handleSignalMap`). */
  class NetworkManager {
    var handles: map<string, seq<Callback>>

    constructor ()
      ensures handles == map[]
    {
      handles := map[];
    }

    /** `addSignalHandle(path, callback)`: appends the callback to the path's list, making
        the list when there is none. */
    method AddSignalHandle(path: string, cb: Callback)
      modifies this
      ensures handles == Added(old(handles), path, cb)
    {
      if path in handles {
        handles := handles[path := handles[path] + [cb]];
      } else {
        handles := handles[path := [cb]];
      }
    }

    /** `removeSignalHandle(path, callback)`: `findIndex` of the identical callback, then the
        list without it. */
    method RemoveSignalHandle(path: string, cb: Callback)
      modifies this
      ensures handles == Removed(old(handles), path, cb)
    {
      if path in handles {
        var cs := handles[path];
        var i := 0;
        while i < |cs| && cs[i] != cb
          invariant i <= |cs| && cb !in cs[..i]
        {
          i := i + 1;
        }
        ObjectTree.RemoveFirstSpec(cs, cb);
        if i < |cs| {
          assert ObjectTree.IndexOf(cs, cb) == i;
          handles := handles[path := cs[..i] + cs[i + 1..]];
        } else {
          assert cs[..i] == cs;
        }
      }
    }

    /** `handleSignal(m)`: the callbacks called, in order, for a signal from `path`
        (`None` for a missing message). */
    method HandleSignal(path: Option<string>) returns (calls: seq<Callback>)
      ensures path.None? ==> calls == []
      ensures path.Some? ==> calls == Handlers(handles, path.value)
      ensures forall c :: c in calls ==> path.Some? && Count(handles, path.value, c) > 0
    {
      if path.Some? && path.value in handles {
        calls := handles[path.value];
      } else {
        calls := [];
      }
    }
  }

  // ---------------------------------------------------------------------------------------
  // Replies
  // ---------------------------------------------------------------------------------------

  /** `v.value`: the number or string a basic TYPE object holds, else `undefined`. */
  function Field(v: Value): Js
  {
    match v
    case Int(_, n, big) => if big then JBig(n) else JNum(n)
    case Text(_, s) => JStr(s)
    case _ => JUndefined
  }

  /** `v.elems` when it is a list: containers have one, basic types do not. */
  function Elems(v: Value): Option<seq<Value>>
  {
    match v
    case Array(_, elems) => Some(elems)
    case Struct(_, _, elems) => Some(elems)
    case Variant(elems) => Some(elems)
    case _ => None
  }

  /** `isConnectivity`: whether `CheckConnectivity` answered 4 (full connectivity). */
  function IsConnectivity(reply: Result<seq<Value>>): (r: Result<bool>)
    ensures reply.Err? ==> r == Err(reply.msg)
    ensures reply.Ok? && reply.value == [] ==> r.Err?
    ensures r.Ok? ==> (r.value <==> exists c :: reply.value[0] == Int(c, 4, false))
  {
    if reply.Err? then Err(reply.msg)
    else if reply.value == [] then Err("Cannot read property 'value' of undefined")
    else Ok(Field(reply.value[0]) == JNum(4))
  }

  /** The paths in a `Get(..., 'ActiveConnections')` reply: the values inside the variant's
      array when the reply has that shape, else none. */
  function ActiveConnections(reply: Result<seq<Value>>): (r: Result<seq<Js>>)
    ensures r.Err? <==> reply.Err?
    ensures r.Ok? && r.value != [] ==>
              && |reply.value| == 1 && Elems(reply.value[0]).Some?
              && var outer := Elems(reply.value[0]).value;
              && |outer| == 2 && Elems(outer[1]).Some?
              && |r.value| == |Elems(outer[1]).value|
              && forall k :: 0 <= k < |r.value| ==> r.value[k] == Field(Elems(outer[1]).value[k])
  {
    if reply.Err? then Err(reply.msg)
    else
      var data := reply.value;
      if |data| == 1 && Elems(data[0]).Some? && |Elems(data[0]).value| == 2 && Elems(Elems(data[0]).value[1]).Some? then
        var elems := Elems(Elems(data[0]).value[1]).value;
        Ok(seq(|elems|, k requires 0 <= k < |elems| => Field(elems[k])))
      else Ok([])
  }

  /** The `ao` value of the object paths `ps`. */
  function PathArray(ps: seq<string>): Value
  {
    Array("o", seq(|ps|, k requires 0 <= k < |ps| => Text('o', ps[k])))
  }

  /** The reply the bus gives, a variant holding an `ao`, yields its paths. */
  lemma ActiveConnectionsRead(ps: seq<string>)
    ensures ActiveConnections(Ok([VariantOf(PathArray(ps))])) ==
              Ok(seq(|ps|, k requires 0 <= k < |ps| => JStr(ps[k])))
  {
    var v := VariantOf(PathArray(ps));
    assert "a" + "o" == "ao";
    assert Elems(v) == Some([Text('g', "ao"), PathArray(ps)]);
    var elems := PathArray(ps).elems;
    assert seq(|elems|, k requires 0 <= k < |elems| => Field(elems[k])) == seq(|ps|, k requires 0 <= k < |ps| => JStr(ps[k]));
  }

  /** A reply of another shape yields no paths and no error. */
  lemma ActiveConnectionsOther(v: Value, w: Value)
    ensures ActiveConnections(Ok([])) == Ok([])
    ensures ActiveConnections(Ok([v, w])) == Ok([])
    ensures ActiveConnections(Ok([Text('o', "/")])) == Ok([])
  {
  }

  // ---------------------------------------------------------------------------------------
  // AddAndActivateConnection
  // ---------------------------------------------------------------------------------------

  /** The UTF-8 bytes of a character (`Buffer.from` of a string). */
  function CharBytes(c: char): (bs: seq<int>)
    ensures 1 <= |bs| <= 4 && AllBytes(bs)
    ensures c as int < 0x80 ==> bs == [c as int]
  {
    var n := c as int;
    if n < 0x80 then [n]
    else if n < 0x800 then [0xC0 + n / 0x40, 0x80 + n % 0x40]
    else if n < 0x1_0000 then [0xE0 + n / 0x1000, 0x80 + (n / 0x40) % 0x40, 0x80 + n % 0x40]
    else [0xF0 + n / 0x4_0000, 0x80 + (n / 0x1000) % 0x40, 0x80 + (n / 0x40) % 0x40, 0x80 + n % 0x40]
  }

  /** `Array.from(Buffer.from(s))`: the UTF-8 bytes of a string. */
  function Utf8(s: string): (bs: seq<int>)
    ensures AllBytes(bs) && |s| <= |bs| <= 4 * |s|
  {
    if s == [] then [] else CharBytes(s[0]) + Utf8(s[1..])
  }

  /** The bytes of an ASCII string are its character codes. */
  lemma {:induction false} Utf8Ascii(s: string)
    requires IsAscii(s)
    ensures |Utf8(s)| == |s| && forall k :: 0 <= k < |s| ==> Utf8(s)[k] == s[k] as int
  {
    if s != [] {
      Utf8Ascii(s[1..]);
    }
  }

  /** `new DICT_ENTRY([new STRING(key), new VARIANT(v)])`: a setting of an `a{sv}` section. */
  function Entry(key: string, v: Value): Value
  {
    Struct("{sv}", ["s", "v"], [Text('s', key), Variant([Text('g', Sig(v)), v])])
  }

  /** `new DICT_ENTRY([new STRING(name), settings])`: a section of the `a{sa{sv}}` value. */
  function Section(name: string, entries: seq<Value>): Value
  {
    Struct("{sa{sv}}", ["s", "a{sv}"], [Text('s', name), Array("{sv}", entries)])
  }

  /** The connection settings for joining the WPA-PSK network `ssid` with password `pwd`,
      under the fresh connection id `uuid`. */
  function Settings(ssid: string, pwd: string, uuid: string): Value
  {
    Array("{sa{sv}}", [
      Section("connection", Connection(ssid, uuid)),
      Section("ipv4", Automatic()),
      Section("ipv6", Automatic()),
      Section("802-11-wireless", Wireless(ssid)),
      Section("802-11-wireless-security", Security(pwd))])
  }

  function Connection(ssid: string, uuid: string): seq<Value>
  {
    [Entry("type", Text('s', "802-11-wireless")), Entry("uuid", Text('s', uuid)), Entry("id", Text('s', ssid))]
  }

  /** The `ipv4` and `ipv6` sections: addresses by DHCP or autoconfiguration. */
  function Automatic(): seq<Value>
  {
    [Entry("method", Text('s', "auto"))]
  }

  function Wireless(ssid: string): seq<Value>
  {
    [Entry("mode", Text('s', "infrastructure")), Entry("ssid", ByteArray(Utf8(ssid)))]
  }

  function Security(pwd: string): seq<Value>
  {
    [Entry("auth-alg", Text('s', "open")), Entry("key-mgmt", Text('s', "wpa-psk")), Entry("psk", Text('s', pwd))]
  }

  /** The second element of the first dictionary entry whose key is the string `key`. */
  function Find(entries: seq<Value>, key: string): Option<Value>
  {
    if entries == [] then None
    else if entries[0].Struct? && |entries[0].elems| == 2 && entries[0].elems[0] == Text('s', key) then
      Some(entries[0].elems[1])
    else Find(entries[1..], key)
  }

  /** The setting `key` of section `section` of an `a{sa{sv}}` value: the value inside its
      variant. */
  function Setting(con: Value, section: string, key: string): Option<Value>
  {
    if !con.Array? then None
    else match Find(con.elems, section)
      case Some(Array(_, entries)) =>
        (match Find(entries, key)
         case Some(Variant(vs)) => if |vs| == 2 then Some(vs[1]) else None
         case _ => None)
      case _ => None
  }

  /** The section names of an `a{sa{sv}}` value, in order. */
  function SectionNames(con: Value): seq<string>
    requires con.Array?
  {
    seq(|con.elems|, k requires 0 <= k < |con.elems| =>
      var e := con.elems[k];
      if e.Struct? && |e.elems| == 2 && e.elems[0].Text? then e.elems[0].s else "")
  }

  /** The sections come in the order connection, ipv4, ipv6, 802-11-wireless,
      802-11-wireless-security. */
  lemma SettingsSections(ssid: string, pwd: string, uuid: string)
    ensures SectionNames(Settings(ssid, pwd, uuid)) ==
              ["connection", "ipv4", "ipv6", "802-11-wireless", "802-11-wireless-security"]
  {
  }

  /** `Find` stops at the first entry with the key. */
  lemma {:induction false} FindAt(entries: seq<Value>, key: string, k: nat)
    requires k < |entries| && entries[k].Struct? && |entries[k].elems| == 2 && entries[k].elems[0] == Text('s', key)
    requires forall j :: 0 <= j < k ==> !(entries[j].Struct? && |entries[j].elems| == 2 && entries[j].elems[0] == Text('s', key))
    ensures Find(entries, key) == Some(entries[k].elems[1])
    decreases k
  {
    if k > 0 {
      FindAt(entries[1..], key, k - 1);
    }
  }

  /** The setting at position `j` of the section at position `k`, when their keys come
      first, is the value inside the setting's variant. */
  lemma SettingAt(con: Value, k: nat, j: nat, v: Value)
    requires con.Array? && k < |con.elems| && con.elems[k].Struct? && |con.elems[k].elems| == 2
    requires con.elems[k].elems[0].Text? && con.elems[k].elems[0].tcode == 's' && con.elems[k].elems[1].Array?
    requires var section := con.elems[k].elems[0].s;
             forall i :: 0 <= i < k ==> !(con.elems[i].Struct? && |con.elems[i].elems| == 2 && con.elems[i].elems[0] == Text('s', section))
    requires var es := con.elems[k].elems[1].elems;
             && j < |es| && es[j].Struct? && |es[j].elems| == 2 && es[j].elems[0].Text? && es[j].elems[0].tcode == 's'
             && es[j].elems[1] == Variant([Text('g', Sig(v)), v])
             && forall i :: 0 <= i < j ==> !(es[i].Struct? && |es[i].elems| == 2 && es[i].elems[0] == es[j].elems[0])
    ensures Setting(con, con.elems[k].elems[0].s, con.elems[k].elems[1].elems[j].elems[0].s) == Some(v)
  {
    var es := con.elems[k].elems[1].elems;
    FindAt(con.elems, con.elems[k].elems[0].s, k);
    FindAt(es, es[j].elems[0].s, j);
  }

  /** The network is named by the SSID's bytes. */
  lemma SettingsSsid(ssid: string, pwd: string, uuid: string)
    ensures Setting(Settings(ssid, pwd, uuid), "802-11-wireless", "ssid") == Some(ByteArray(Utf8(ssid)))
  {
    SettingAt(Settings(ssid, pwd, uuid), 3, 1, ByteArray(Utf8(ssid)));
  }

  /** The network is secured by WPA-PSK with the password. */
  lemma SettingsSecurity(ssid: string, pwd: string, uuid: string)
    ensures Setting(Settings(ssid, pwd, uuid), "802-11-wireless-security", "key-mgmt") == Some(Text('s', "wpa-psk"))
    ensures Setting(Settings(ssid, pwd, uuid), "802-11-wireless-security", "psk") == Some(Text('s', pwd))
  {
    SettingAt(Settings(ssid, pwd, uuid), 4, 1, Text('s', "wpa-psk"));
    SettingAt(Settings(ssid, pwd, uuid), 4, 2, Text('s', pwd));
  }

  /** The connection is named by the SSID. */
  lemma SettingsId(ssid: string, pwd: string, uuid: string)
    ensures Setting(Settings(ssid, pwd, uuid), "connection", "id") == Some(Text('s', ssid))
  {
    SettingAt(Settings(ssid, pwd, uuid), 0, 2, Text('s', ssid));
  }

  /** Pushing a byte onto the `ay` of `bs`. */
  lemma ByteArrayPush(bs: seq<int>, b: int)
    ensures Push(ByteArray(bs), Int('y', b, false)) == Ok(ByteArray(bs + [b]))
  {
    assert ByteArray(bs + [b]).elems == ByteArray(bs).elems + [Int('y', b, false)];
  }

  /** `settings.push(new DICT_ENTRY([new STRING(key), new VARIANT(v)]))`, which cannot throw
      on an `a{sv}`. */
  method PushEntry(settings: Value, key: string, v: Value) returns (r: Value)
    requires settings.Array? && settings.esig == "{sv}"
    ensures r == Array("{sv}", settings.elems + [Entry(key, v)])
  {
    var e := DictEntryOf([Text('s', key), VariantOf(v)], None);
    assert IsBasicKey("s") && "{" + "s" + "v" + "}" == "{sv}";
    assert e == Ok(Entry(key, v));
    r := Push(settings, e.value).value;
  }

  /** `con.push(new DICT_ENTRY([new STRING(name), settings]))`, which cannot throw on an
      `a{sa{sv}}`. */
  method PushSection(con: Value, name: string, entries: seq<Value>) returns (r: Value)
    requires con.Array? && con.esig == "{sa{sv}}"
    ensures r == Array("{sa{sv}}", con.elems + [Section(name, entries)])
  {
    var e := DictEntryOf([Text('s', name), Array("{sv}", entries)], None);
    assert IsBasicKey("s") && "a" + "{sv}" == "a{sv}" && "{" + "s" + "a{sv}" + "}" == "{sa{sv}}";
    assert e == Ok(Section(name, entries));
    r := Push(con, e.value).value;
  }

  /** `Array.from(Buffer.from(Ssid)).forEach(x => ssid.push(new BYTE(x)))` on a new `ay`. */
  method SsidBytes(ssid: string) returns (r: Value)
    ensures r == ByteArray(Utf8(ssid))
  {
    r := BySignature("ay").value;
    var bytes := Utf8(ssid);
    assert r == ByteArray(bytes[..0]);
    for i := 0 to |bytes|
      invariant r == ByteArray(bytes[..i])
    {
      var b := NewFixed('y', JNum(bytes[i])).value;
      ByteArrayPush(bytes[..i], bytes[i]);
      assert bytes[..i + 1] == bytes[..i] + [bytes[i]];
      r := Push(r, b).value;
    }
    assert bytes[..|bytes|] == bytes;
  }

  /** The `connection` section: a wireless connection with the fresh id, named by the
      SSID. */
  method ConnectionSection(ssid: string, uuid: string) returns (r: Value)
    ensures r == Array("{sv}", Connection(ssid, uuid))
  {
    r := BySignature("a{sv}").value;
    r := PushEntry(r, "type", Text('s', "802-11-wireless"));
    r := PushEntry(r, "uuid", Text('s', uuid));
    r := PushEntry(r, "id", Text('s', ssid));
  }

  /** The `ipv4` or `ipv6` section. */
  method AutomaticSection() returns (r: Value)
    ensures r == Array("{sv}", Automatic())
  {
    r := BySignature("a{sv}").value;
    r := PushEntry(r, "method", Text('s', "auto"));
  }

  /** The `802-11-wireless` section. */
  method WirelessSection(ssid: string) returns (r: Value)
    ensures r == Array("{sv}", Wireless(ssid))
  {
    r := BySignature("a{sv}").value;
    var ssidBytes := SsidBytes(ssid);
    r := PushEntry(r, "mode", Text('s', "infrastructure"));
    r := PushEntry(r, "ssid", ssidBytes);
  }

  /** The `802-11-wireless-security` section. */
  method SecuritySection(pwd: string) returns (r: Value)
    ensures r == Array("{sv}", Security(pwd))
  {
    r := BySignature("a{sv}").value;
    r := PushEntry(r, "auth-alg", Text('s', "open"));
    r := PushEntry(r, "key-mgmt", Text('s', "wpa-psk"));
    r := PushEntry(r, "psk", Text('s', pwd));
  }

  /** `new ARRAY('a{sa{sv}}')`. */
  method EmptySettings() returns (r: Value)
    ensures r == Array("{sa{sv}}", [])
  {
    r := BySignature("a{sa{sv}}").value;
    assert "a{sa{sv}}"[1..] == "{sa{sv}}";
  }

  /** `AddAndActivateConnection(Ssid, pwd, device, specific_object)`: the body of the call
      it sends, built section by section; `uuid` is the fresh `UUID.v4()`. */
  method AddAndActivateConnection(ssid: string, pwd: string, device: string, specific: string, uuid: string)
    returns (body: seq<Value>)
    ensures body == [Settings(ssid, pwd, uuid), Text('o', device), Text('o', specific)]
    ensures Sigs(body) == ["a{sa{sv}}", "o", "o"]
  {
    var connection := ConnectionSection(ssid, uuid);
    var ipv4 := AutomaticSection();
    var ipv6 := AutomaticSection();
    var wifi := WirelessSection(ssid);
    var security := SecuritySection(pwd);
    var con := EmptySettings();
    con := PushSection(con, "connection", connection.elems);
    con := PushSection(con, "ipv4", ipv4.elems);
    con := PushSection(con, "ipv6", ipv6.elems);
    con := PushSection(con, "802-11-wireless", wifi.elems);
    con := PushSection(con, "802-11-wireless-security", security.elems);
    body := [con, Text('o', device), Text('o', specific)];
    var sections := Settings(ssid, pwd, uuid).elems;
    assert con.elems == [] + [sections[0]] + [sections[1]] + [sections[2]] + [sections[3]] + [sections[4]];
    assert con.elems == sections;
    assert con == Settings(ssid, pwd, uuid);
    assert "a" + "{sa{sv}}" == "a{sa{sv}}";
  }
}
