/** The `org.freedesktop.DBus.Properties` interface of `dbus-properties.js`: `getAll`, which
    collects the declared properties an interface object defines into an `a{sv}` map, `GetAll`
    by interface name, and the body of the `PropertiesChanged` signal. `Get` and `Set` do
    nothing and never call back. */
module Properties {
  import opened Wrappers
  import opened DBusTypes
  import opened Interfaces
  import Driver

  /** `new DICT_ENTRY([new STRING(name), new VARIANT(v)])`: one entry of an `a{sv}` map. */
  function PropEntry(name: string, v: Value): (r: Value)
    ensures Sig(r) == "{sv}"
    ensures DictEntryOf([Text('s', name), VariantOf(v)], None) == Ok(r)
    ensures r.Struct? && r.elems == [Text('s', name), Variant([Text('g', Sig(v)), v])]
  {
    assert "{" + Sig(Text('s', name)) + Sig(VariantOf(v)) + "}" == "{sv}";
    Struct("{sv}", ["s", "v"], [Text('s', name), VariantOf(v)])
  }

  /** The declared properties the interface object defines (`prop in iface`), in
      declaration order. */
  function Present(props: seq<PropDecl>, values: map<string, Js>): (r: seq<PropDecl>)
    ensures |r| <= |props|
    ensures forall k :: 0 <= k < |r| ==> r[k] in props && r[k].name in values
    ensures forall p :: p in props && p.name in values ==> p in r
    decreases |props|
  {
    if props == [] then []
    else
      var pre := Present(props[..|props| - 1], values);
      var p := props[|props| - 1];
      assert forall q :: q in props ==> q in props[..|props| - 1] || q == p;
      if p.name in values then pre + [p] else pre
  }

  /** `new TYPE(sig, iface[prop])` for a present property. */
  function Typed(p: PropDecl, values: map<string, Js>): Result<Value>
    requires p.name in values
  {
    New(p.sig, values[p.name])
  }

  /** The entries `getAll` pushes for the declared properties `props`, or the error the first
      present property whose value does not fit its signature throws. */
  function Entries(props: seq<PropDecl>, values: map<string, Js>): Result<seq<Value>>
    decreases |props|
  {
    if props == [] then Ok([])
    else
      var pre :- Entries(props[..|props| - 1], values);
      var p := props[|props| - 1];
      if p.name !in values then Ok(pre)
      else
        var v :- Typed(p, values);
        Ok(pre + [PropEntry(p.name, v)])
  }

  /** `getAll(iface)`: the `a{sv}` array of the entries. */
  function AllProps(iface: Iface): Result<Value>
  {
    var es :- Entries(iface.definition.properties, iface.values);
    Ok(Array("{sv}", es))
  }

  /** Every one of the properties has a value that fits its signature. */
  predicate AllFit(ps: seq<PropDecl>, values: map<string, Js>)
  {
    forall k :: 0 <= k < |ps| ==> ps[k].name in values && Typed(ps[k], values).Ok?
  }

  /** The entry of each property, naming it and holding its value as a variant. */
  function EntriesOf(ps: seq<PropDecl>, values: map<string, Js>): seq<Value>
    requires AllFit(ps, values)
  {
    seq(|ps|, k requires 0 <= k < |ps| && AllFit(ps, values) => PropEntry(ps[k].name, Typed(ps[k], values).value))
  }

  /** `getAll` fails exactly when some present property does not fit its signature; otherwise
      it holds one entry per present property, in declaration order. Absent properties are
      left out. */
  lemma {:induction false} EntriesOfPresent(props: seq<PropDecl>, values: map<string, Js>)
    ensures Entries(props, values).Ok? <==> AllFit(Present(props, values), values)
    ensures AllFit(Present(props, values), values) ==>
              Entries(props, values) == Ok(EntriesOf(Present(props, values), values))
    decreases |props|
  {
    if props != [] {
      var init := props[..|props| - 1];
      var p := props[|props| - 1];
      EntriesOfPresent(init, values);
      var pre := Present(init, values);
      if p.name in values {
        assert Present(props, values) == pre + [p];
        FitMore(pre, p, values);
      } else {
        assert Present(props, values) == pre;
      }
    } else {
      assert EntriesOf([], values) == [];
    }
  }

  lemma FitMore(pre: seq<PropDecl>, p: PropDecl, values: map<string, Js>)
    requires p.name in values
    ensures AllFit(pre + [p], values) <==> AllFit(pre, values) && Typed(p, values).Ok?
    ensures AllFit(pre + [p], values) ==>
              EntriesOf(pre + [p], values) == EntriesOf(pre, values) + [PropEntry(p.name, Typed(p, values).value)]
  {
    var ps := pre + [p];
    assert forall k :: 0 <= k < |pre| ==> ps[k] == pre[k];
    if AllFit(ps, values) {
      assert ps[|pre|] == p;
      var a := EntriesOf(ps, values);
      var b := EntriesOf(pre, values) + [PropEntry(p.name, Typed(p, values).value)];
      forall k | 0 <= k < |a|
        ensures a[k] == b[k]
      {
      }
    }
  }

  /** `getAll` yields an `a{sv}` array whose entries are exactly the present properties. */
  lemma AllPropsShape(iface: Iface)
    ensures var ps := Present(iface.definition.properties, iface.values);
      AllProps(iface).Ok? ==>
        && AllProps(iface).value.Array? && Sig(AllProps(iface).value) == "a{sv}"
        && |AllProps(iface).value.elems| == |ps|
        && forall k :: 0 <= k < |ps| ==>
             && Typed(ps[k], iface.values).Ok? && AllProps(iface).value.elems[k].Struct?
             && AllProps(iface).value.elems[k].elems == [Text('s', ps[k].name), VariantOf(Typed(ps[k], iface.values).value)]
    ensures AllProps(iface).Ok? <==> AllFit(Present(iface.definition.properties, iface.values), iface.values)
  {
    EntriesOfPresent(iface.definition.properties, iface.values);
  }

  /** Once a prefix of the declarations fails, the whole list fails with its error. */
  lemma {:induction false} EntriesStuck(props: seq<PropDecl>, values: map<string, Js>, i: nat)
    requires i <= |props| && Entries(props[..i], values).Err?
    ensures Entries(props, values) == Entries(props[..i], values)
    decreases |props| - i
  {
    if i < |props| {
      assert props[..i + 1][..i] == props[..i];
      EntriesStuck(props, values, i + 1);
    } else {
      assert props[..i] == props;
    }
  }

  /** One more declaration: skipped when absent, its error when its value does not fit,
      otherwise one more entry. */
  lemma EntriesStep(props: seq<PropDecl>, values: map<string, Js>, i: nat)
    requires i < |props| && Entries(props[..i], values).Ok?
    ensures props[i].name !in values ==> Entries(props[..i + 1], values) == Entries(props[..i], values)
    ensures props[i].name in values && Typed(props[i], values).Err? ==>
              Entries(props[..i + 1], values) == Err(Typed(props[i], values).msg)
    ensures props[i].name in values && Typed(props[i], values).Ok? ==>
              Entries(props[..i + 1], values) ==
              Ok(Entries(props[..i], values).value + [PropEntry(props[i].name, Typed(props[i], values).value)])
  {
    assert props[..i + 1][..i] == props[..i];
  }

  /** `getAll`: the `forEach` over the declared properties, pushing onto `new ARRAY('a{sv}')`. */
  method GetAllOf(iface: Iface) returns (r: Result<Value>)
    ensures r == AllProps(iface)
  {
    var shell := BySignature("a{sv}");
    var arr := shell.value;
    var props := iface.definition.properties;
    for i := 0 to |props|
      invariant arr.Array? && arr.esig == "{sv}"
      invariant Entries(props[..i], iface.values) == Ok(arr.elems)
    {
      var p := props[i];
      EntriesStep(props, iface.values, i);
      if p.name in iface.values {
        var v := New(p.sig, iface.values[p.name]);
        if v.Err? {
          EntriesStuck(props, iface.values, i + 1);
          return Err(v.msg);
        }
        var entry := DictEntryOf([Text('s', p.name), VariantOf(v.value)], None);
        assert entry == Ok(PropEntry(p.name, v.value));
        arr := Push(arr, entry.value).value;
      }
    }
    assert props[..|props|] == props;
    r := Ok(arr);
  }

  /** `GetAll(name)`: the properties of this object's first interface named by the argument's
      value, or the error `biang biang` when it has none of that name. */
  function GetAllNamed(ids: seq<nat>, table: map<nat, Iface>, name: Value): (r: Result<Value>)
    requires forall k :: 0 <= k < |ids| ==> ids[k] in table
    ensures r == Err("biang biang") ||
            exists k :: 0 <= k < |ids| && JStr(table[ids[k]].name) == Driver.ValueOf(name)
    ensures forall k :: 0 <= k < |ids| && JStr(table[ids[k]].name) == Driver.ValueOf(name) &&
                        (forall j :: 0 <= j < k ==> JStr(table[ids[j]].name) != Driver.ValueOf(name))
                        ==> r == AllProps(table[ids[k]])
  {
    var found := FindByName(ids, table, Driver.ValueOf(name));
    if found.None? then Err("biang biang") else AllProps(table[ids[found.value]])
  }

  // ---------------------------------------------------------------------------------------
  // PropertiesChanged

  /** `props.find(ns => ns[0] === name)`. */
  function FirstDecl(props: seq<PropDecl>, name: string): (r: Option<PropDecl>)
    ensures r.Some? ==> r.value in props && r.value.name == name
    ensures r.None? ==> forall p :: p in props ==> p.name != name
  {
    if props == [] then None
    else if props[0].name == name then Some(props[0])
    else FirstDecl(props[1..], name)
  }

  /** `cprops.map(p => props.find(...)).filter(x => !!x)`: the declarations of the changed
      properties, in the order they are named, leaving out undeclared names. */
  function Declared(cprops: seq<string>, props: seq<PropDecl>): (r: seq<PropDecl>)
    ensures |r| <= |cprops|
    ensures forall k :: 0 <= k < |r| ==> r[k] in props && r[k].name in cprops
    ensures forall c :: c in cprops && FirstDecl(props, c).Some? ==> FirstDecl(props, c).value in r
  {
    if cprops == [] then []
    else
      var d := FirstDecl(props, cprops[0]);
      var rest := Declared(cprops[1..], props);
      assert forall c :: c in cprops ==> c == cprops[0] || c in cprops[1..];
      if d.Some? then [d.value] + rest else rest
  }

  /** `nss.map(ns => new DICT_ENTRY([...]))`: each changed property with its current value
      (`undefined` when the object does not define it). */
  function ChangedEntries(nss: seq<PropDecl>, iface: Iface): (r: Result<seq<Value>>)
    ensures r.Ok? ==> |r.value| == |nss| && forall k :: 0 <= k < |nss| ==> Sig(r.value[k]) == "{sv}"
    ensures r.Ok? ==> forall k :: 0 <= k < |nss| ==>
              New(nss[k].sig, Property(iface, nss[k].name)).Ok? &&
              r.value[k] == PropEntry(nss[k].name, New(nss[k].sig, Property(iface, nss[k].name)).value)
  {
    if nss == [] then Ok([])
    else
      var v :- New(nss[0].sig, Property(iface, nss[0].name));
      var rest :- ChangedEntries(nss[1..], iface);
      Ok([PropEntry(nss[0].name, v)] + rest)
  }

  /** `new ARRAY(iprops, 'as')` as written: the invalidated names are plain strings, which the
      ARRAY constructor refuses unless there are none. */
  function InvalidatedAsWritten(iprops: seq<string>): (r: Result<Value>)
  {
    if iprops == [] then ArrayOf([], Some("as")) else Err("elems contains non-TYPE object")
  }

  /** Every non-empty list of invalidated properties makes `PropertiesChanged` throw. */
  lemma InvalidatedRefused(iprops: seq<string>)
    ensures InvalidatedAsWritten(iprops).Ok? <==> iprops == []
    ensures InvalidatedAsWritten(["Value"]) == Err("elems contains non-TYPE object")
  {
  }

  function Strings(ss: seq<string>): (r: seq<Value>)
    ensures |r| == |ss| && forall k :: 0 <= k < |ss| ==> r[k] == Text('s', ss[k])
  {
    if ss == [] then [] else [Text('s', ss[0])] + Strings(ss[1..])
  }

  /** `new ARRAY(iprops.map(p => new STRING(p)), 'as')`: the invalidated names as an array of
      STRINGs, which the ARRAY constructor accepts. */
  function Invalidated(iprops: seq<string>): (r: Value)
    ensures ArrayOf(Strings(iprops), Some("as")) == Ok(r) && Sig(r) == "as"
    ensures Eval(r) == JArr(seq(|iprops|, k requires 0 <= k < |iprops| => JStr(iprops[k])))
  {
    var es := Strings(iprops);
    assert forall k :: 0 <= k < |es| ==> Sig(es[k]) == "s";
    EvalStrings(iprops);
    Array("s", es)
  }

  lemma {:induction false} EvalStrings(ss: seq<string>)
    ensures EvalAll(Strings(ss)) == seq(|ss|, k requires 0 <= k < |ss| => JStr(ss[k]))
  {
    if ss != [] {
      EvalStrings(ss[1..]);
    }
  }

  /** A non-empty list of `{sv}` entries makes an `a{sv}` array. */
  lemma EntriesArray(es: seq<Value>)
    requires es != [] && forall k :: 0 <= k < |es| ==> Sig(es[k]) == "{sv}"
    ensures ArrayOf(es, Some("a{sv}")) == Ok(Array("{sv}", es)) && Sig(Array("{sv}", es)) == "a{sv}"
  {
  }

  /** The body of `PropertiesChanged(iface, cprops, iprops)`, `None` when no changed property
      is declared (nothing is sent). The invalidated names are passed to the ARRAY constructor
      as written, so a non-empty list of them throws once the changed entries are built. */
  function ChangedBody(iface: Iface, cprops: seq<string>, iprops: seq<string>): (r: Result<Option<seq<Value>>>)
    ensures Declared(cprops, iface.definition.properties) == [] ==> r == Ok(None)
    ensures Declared(cprops, iface.definition.properties) != [] && iprops != [] ==> r.Err?
    ensures Declared(cprops, iface.definition.properties) != [] && iprops != []
            && ChangedEntries(Declared(cprops, iface.definition.properties), iface).Ok? ==>
              r == Err("elems contains non-TYPE object")
    ensures r.Ok? && r.value.Some? ==>
              && iprops == []
              && |r.value.value| == 3 && Sigs(r.value.value) == ["s", "a{sv}", "as"]
              && r.value.value[0] == Text('s', iface.name)
              && ChangedEntries(Declared(cprops, iface.definition.properties), iface).Ok?
              && r.value.value[1] == Array("{sv}", ChangedEntries(Declared(cprops, iface.definition.properties), iface).value)
              && r.value.value[2] == Invalidated(iprops)
              && Eval(r.value.value[2]) == JArr(seq(|iprops|, k requires 0 <= k < |iprops| => JStr(iprops[k])))
  {
    var nss := Declared(cprops, iface.definition.properties);
    if nss == [] then Ok(None)
    else
      var es :- ChangedEntries(nss, iface);
      EntriesArray(es);
      var changed := ArrayOf(es, Some("a{sv}")).value;
      var invalidated :- InvalidatedAsWritten(iprops);
      assert iprops == [] && Strings(iprops) == [];
      assert invalidated == Invalidated(iprops);
      var body := [Text('s', iface.name), changed, invalidated];
      assert Sigs(body) == [Sig(body[0]), Sig(body[1]), Sig(body[2])];
      Ok(Some(body))
  }
}
