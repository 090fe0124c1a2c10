/** `GetManagedObjects` of the `org.freedesktop.DBus.ObjectManager` interface: a visit of the
    subtree of the object the interface is on, giving one entry for each object that has a
    Properties interface, keyed by its object path, and holding for each of its interfaces
    that declares properties the interface's name and its `getAll`. The result has type
    `a{oa{sa{sv}}}`. */
module ObjectManager {
  import opened Wrappers
  import opened DBusTypes
  import opened NodePath
  import opened ObjectTree
  import opened Interfaces
  import Properties
  import Bus

  predicate InTable(ids: seq<nat>, table: map<nat, Iface>)
  {
    forall k :: 0 <= k < |ids| ==> ids[k] in table
  }

  // ---------------------------------------------------------------------------------------
  // The interfaces of one object

  /** The interfaces that declare at least one property, in order. */
  function Declaring(ids: seq<nat>, table: map<nat, Iface>): (r: seq<nat>)
    requires InTable(ids, table)
    ensures forall k :: 0 <= k < |r| ==> r[k] in ids && r[k] in table && table[r[k]].definition.properties != []
    ensures forall i :: i in ids && table[i].definition.properties != [] ==> i in r
    decreases |ids|
  {
    if ids == [] then []
    else
      var n := |ids| - 1;
      assert forall k :: 0 <= k < n ==> ids[..n][k] == ids[k];
      assert forall i :: i in ids ==> i in ids[..n] || i == ids[n];
      var pre := Declaring(ids[..n], table);
      if table[ids[n]].definition.properties == [] then pre else pre + [ids[n]]
  }

  /** `new DICT_ENTRY([new STRING(iface.name), DP.getAll(iface)])`. */
  function IfaceEntry(iface: Iface): (r: Result<Value>)
    ensures r.Ok? <==> Properties.AllProps(iface).Ok?
    ensures r.Ok? ==> Sig(r.value) == "{sa{sv}}"
    ensures r.Ok? ==> DictEntryOf([Text('s', iface.name), Properties.AllProps(iface).value], None) == Ok(r.value)
  {
    var all :- Properties.AllProps(iface);
    assert Sig(all) == "a{sv}";
    assert "{" + "s" + "a{sv}" + "}" == "{sa{sv}}";
    Ok(Struct("{sa{sv}}", ["s", "a{sv}"], [Text('s', iface.name), all]))
  }

  /** The `reduce` over the interfaces: one entry per interface with declared properties. */
  function IfaceEntries(ids: seq<nat>, table: map<nat, Iface>): Result<seq<Value>>
    requires InTable(ids, table)
    decreases |ids|
  {
    if ids == [] then Ok([])
    else
      var n := |ids| - 1;
      assert forall k :: 0 <= k < n ==> ids[..n][k] == ids[k];
      var pre :- IfaceEntries(ids[..n], table);
      var iface := table[ids[n]];
      if iface.definition.properties == [] then Ok(pre)
      else
        var e :- IfaceEntry(iface);
        Ok(pre + [e])
  }

  predicate AllReadable(ds: seq<nat>, table: map<nat, Iface>)
    requires InTable(ds, table)
  {
    forall k :: 0 <= k < |ds| ==> Properties.AllProps(table[ds[k]]).Ok?
  }

  /** The entries fail exactly when the `getAll` of an interface that declares properties
      fails; otherwise there is one entry per such interface, in interface order, and the
      others are left out. */
  lemma {:induction false} IfaceEntriesOf(ids: seq<nat>, table: map<nat, Iface>)
    requires InTable(ids, table)
    ensures IfaceEntries(ids, table).Ok? <==> AllReadable(Declaring(ids, table), table)
    ensures IfaceEntries(ids, table).Ok? ==>
              && |IfaceEntries(ids, table).value| == |Declaring(ids, table)|
              && forall k :: 0 <= k < |Declaring(ids, table)| ==>
                   IfaceEntry(table[Declaring(ids, table)[k]]) == Ok(IfaceEntries(ids, table).value[k])
    decreases |ids|
  {
    if ids != [] {
      var n := |ids| - 1;
      var pre := ids[..n];
      assert forall k :: 0 <= k < n ==> pre[k] == ids[k];
      IfaceEntriesOf(pre, table);
      var d := Declaring(pre, table);
      if table[ids[n]].definition.properties != [] {
        assert Declaring(ids, table) == d + [ids[n]];
        assert AllReadable(Declaring(ids, table), table) <==>
                 AllReadable(d, table) && Properties.AllProps(table[ids[n]]).Ok?;
      }
    }
  }

  /** One more interface: skipped without declared properties, otherwise its entry or its
      error. */
  lemma IfaceEntriesStep(ids: seq<nat>, table: map<nat, Iface>, j: nat)
    requires InTable(ids, table) && j < |ids| && IfaceEntries(ids[..j], table).Ok?
    ensures InTable(ids[..j + 1], table)
    ensures table[ids[j]].definition.properties == [] ==> IfaceEntries(ids[..j + 1], table) == IfaceEntries(ids[..j], table)
    ensures table[ids[j]].definition.properties != [] && IfaceEntry(table[ids[j]]).Err? ==>
              IfaceEntries(ids[..j + 1], table) == Err(IfaceEntry(table[ids[j]]).msg)
    ensures table[ids[j]].definition.properties != [] && IfaceEntry(table[ids[j]]).Ok? ==>
              IfaceEntries(ids[..j + 1], table) ==
              Ok(IfaceEntries(ids[..j], table).value + [IfaceEntry(table[ids[j]]).value])
  {
    assert ids[..j + 1][..j] == ids[..j];
  }

  lemma {:induction false} IfaceEntriesStuck(ids: seq<nat>, table: map<nat, Iface>, j: nat)
    requires InTable(ids, table) && j <= |ids| && IfaceEntries(ids[..j], table).Err?
    ensures IfaceEntries(ids, table) == IfaceEntries(ids[..j], table)
    decreases |ids| - j
  {
    if j < |ids| {
      assert ids[..j + 1][..j] == ids[..j];
      IfaceEntriesStuck(ids, table, j + 1);
    } else {
      assert ids[..j] == ids;
    }
  }

  // ---------------------------------------------------------------------------------------
  // The objects of the subtree

  /** An object as the walk sees it: the names of its object path and its interfaces. */
  datatype Obj = Obj(names: seq<string>, ids: seq<nat>)

  predicate AllInTable(objs: seq<Obj>, table: map<nat, Iface>)
  {
    forall k :: 0 <= k < |objs| ==> InTable(objs[k].ids, table)
  }

  predicate InTree(t: Tree, order: seq<nat>)
    reads t
  {
    forall k :: 0 <= k < |order| ==> order[k] < |t.names|
  }

  /** The objects of `order` with their object paths and interfaces. */
  function Snapshot(t: Tree, order: seq<nat>): (r: seq<Obj>)
    reads t
    requires t.Valid() && InTree(t, order)
    ensures |r| == |order|
    decreases |order|
  {
    if order == [] then []
    else
      var n := |order| - 1;
      assert forall k :: 0 <= k < n ==> order[..n][k] == order[k];
      Snapshot(t, order[..n]) + [Obj(t.PathNames(order[n]), t.ifaces[order[n]])]
  }

  /** The `k`-th object of the walk, with its object path and its interfaces. */
  lemma {:induction false} SnapshotAt(t: Tree, order: seq<nat>, k: nat)
    requires t.Valid() && InTree(t, order) && k < |order|
    ensures Snapshot(t, order)[k] == Obj(t.PathNames(order[k]), t.ifaces[order[k]])
    decreases |order|
  {
    var n := |order| - 1;
    var pre := order[..n];
    assert forall j :: 0 <= j < n ==> pre[j] == order[j];
    assert Snapshot(t, order) == Snapshot(t, pre) + [Obj(t.PathNames(order[n]), t.ifaces[order[n]])];
    if k < n {
      SnapshotAt(t, pre, k);
    }
  }

  /** The object has an interface named `org.freedesktop.DBus.Properties`. */
  predicate HasProperties(o: Obj, table: map<nat, Iface>)
    requires InTable(o.ids, table)
  {
    FindByName(o.ids, table, JStr(PropertiesName)).Some?
  }

  lemma ObjectSignatures()
    ensures "a" + "{sa{sv}}" == "a{sa{sv}}"
    ensures "{" + "o" + "a{sa{sv}}" + "}" == "{oa{sa{sv}}}"
  {
  }

  /** The entry of one object: none without a Properties interface; otherwise its object
      path with the entries of its interfaces. */
  function ObjectEntry(o: Obj, table: map<nat, Iface>): (r: Result<Option<Value>>)
    requires InTable(o.ids, table)
    ensures r.Ok? && r.value.None? <==> !HasProperties(o, table)
    ensures r.Err? <==> HasProperties(o, table) && IfaceEntries(o.ids, table).Err?
  {
    if !HasProperties(o, table) then Ok(None)
    else
      var es :- IfaceEntries(o.ids, table);
      Ok(Some(Struct("{oa{sa{sv}}}", ["o", "a{sa{sv}}"], [Text('o', JoinPath(o.names)), Array("{sa{sv}}", es)])))
  }

  /** An object's entry is `new DICT_ENTRY([new OBJECT_PATH(path), entries])`, of type
      `{oa{sa{sv}}}`. */
  lemma ObjectEntryShape(o: Obj, table: map<nat, Iface>)
    requires InTable(o.ids, table) && ObjectEntry(o, table).Ok? && ObjectEntry(o, table).value.Some?
    ensures Sig(ObjectEntry(o, table).value.value) == "{oa{sa{sv}}}"
    ensures IfaceEntries(o.ids, table).Ok?
    ensures DictEntryOf([Text('o', JoinPath(o.names)), Array("{sa{sv}}", IfaceEntries(o.ids, table).value)], None) ==
              Ok(ObjectEntry(o, table).value.value)
  {
    ObjectSignatures();
  }

  /** The objects that have a Properties interface, in order. */
  function WithProperties(objs: seq<Obj>, table: map<nat, Iface>): (r: seq<Obj>)
    requires AllInTable(objs, table)
    ensures AllInTable(r, table)
    ensures forall o :: o in r <==> o in objs && InTable(o.ids, table) && HasProperties(o, table)
    decreases |objs|
  {
    if objs == [] then []
    else
      var n := |objs| - 1;
      assert forall k :: 0 <= k < n ==> objs[..n][k] == objs[k];
      assert forall o :: o in objs <==> o in objs[..n] || o == objs[n];
      var pre := WithProperties(objs[..n], table);
      if HasProperties(objs[n], table) then pre + [objs[n]] else pre
  }

  /** The visit's callback over the objects, pushing one entry per object with a
      Properties interface. */
  function Managed(objs: seq<Obj>, table: map<nat, Iface>): Result<seq<Value>>
    requires AllInTable(objs, table)
    decreases |objs|
  {
    if objs == [] then Ok([])
    else
      var n := |objs| - 1;
      assert forall k :: 0 <= k < n ==> objs[..n][k] == objs[k];
      var pre :- Managed(objs[..n], table);
      var e :- ObjectEntry(objs[n], table);
      if e.None? then Ok(pre) else Ok(pre + [e.value])
  }

  /** `GetManagedObjects` of the object manager on object `n`. */
  function ManagedObjects(t: Tree, table: map<nat, Iface>, n: nat): (r: Result<Value>)
    reads t
    requires t.Valid() && Bus.Covers(t.ifaces, table) && n < |t.names|
    ensures r.Ok? ==> Sig(r.value) == "a{oa{sa{sv}}}"
  {
    SnapshotCovered(t, table, t.Visit(n));
    var es :- Managed(Snapshot(t, t.Visit(n)), table);
    ManagedShell();
    Ok(Array("{oa{sa{sv}}}", es))
  }

  /** `new ARRAY('a{oa{sa{sv}}}')` is the empty array of object entries. */
  lemma ManagedShell()
    ensures BySignature("a{oa{sa{sv}}}") == Ok(Array("{oa{sa{sv}}}", []))
    ensures "a" + "{oa{sa{sv}}}" == "a{oa{sa{sv}}}"
  {
    assert "a{oa{sa{sv}}}"[1..] == "{oa{sa{sv}}}";
  }

  /** `new ARRAY('a{sa{sv}}')` is the empty array of interface entries. */
  lemma EntriesShell()
    ensures BySignature("a{sa{sv}}") == Ok(Array("{sa{sv}}", []))
  {
    assert "a{sa{sv}}"[1..] == "{sa{sv}}";
  }

  predicate ObjectsReadable(objs: seq<Obj>, table: map<nat, Iface>)
    requires AllInTable(objs, table)
  {
    forall k :: 0 <= k < |objs| ==> IfaceEntries(objs[k].ids, table).Ok?
  }

  /** The walk fails exactly when the entries of some object with a Properties interface
      fail. */
  lemma {:induction false} ManagedFails(objs: seq<Obj>, table: map<nat, Iface>)
    requires AllInTable(objs, table)
    ensures Managed(objs, table).Ok? <==> ObjectsReadable(WithProperties(objs, table), table)
    decreases |objs|
  {
    if objs != [] {
      var n := |objs| - 1;
      var pre := objs[..n];
      assert forall k :: 0 <= k < n ==> pre[k] == objs[k];
      ManagedFails(pre, table);
      var w := WithProperties(pre, table);
      if HasProperties(objs[n], table) {
        assert WithProperties(objs, table) == w + [objs[n]];
        assert ObjectsReadable(w + [objs[n]], table) <==>
                 ObjectsReadable(w, table) && IfaceEntries(objs[n].ids, table).Ok?;
      } else {
        assert WithProperties(objs, table) == w;
      }
    }
  }

  /** Otherwise there is one entry per object with a Properties interface, in the walk's
      order. */
  lemma {:induction false} ManagedEntries(objs: seq<Obj>, table: map<nat, Iface>)
    requires AllInTable(objs, table) && Managed(objs, table).Ok?
    ensures |Managed(objs, table).value| == |WithProperties(objs, table)|
    ensures forall k :: 0 <= k < |WithProperties(objs, table)| ==>
              ObjectEntry(WithProperties(objs, table)[k], table) == Ok(Some(Managed(objs, table).value[k]))
    decreases |objs|
  {
    if objs != [] {
      var n := |objs| - 1;
      var pre := objs[..n];
      assert forall k :: 0 <= k < n ==> pre[k] == objs[k];
      ManagedEntries(pre, table);
      var w := WithProperties(pre, table);
      if HasProperties(objs[n], table) {
        assert WithProperties(objs, table) == w + [objs[n]];
      } else {
        assert WithProperties(objs, table) == w;
      }
    }
  }

  /** The walk covers the object manager's object and every object below it, each once,
      the object first. */
  lemma ManagedCovers(t: Tree, n: nat, x: nat)
    requires t.Valid() && n < |t.names| && x < |t.names|
    ensures t.Visit(n)[0] == n
    ensures x in t.Visit(n) <==> t.Below(x, n)
  {
    t.VisitCovers(n, x);
  }

  lemma ManagedStep(objs: seq<Obj>, table: map<nat, Iface>, i: nat)
    requires AllInTable(objs, table) && i < |objs| && Managed(objs[..i], table).Ok?
    ensures AllInTable(objs[..i + 1], table)
    ensures ObjectEntry(objs[i], table).Err? ==> Managed(objs[..i + 1], table) == Err(ObjectEntry(objs[i], table).msg)
    ensures ObjectEntry(objs[i], table) == Ok(None) ==> Managed(objs[..i + 1], table) == Managed(objs[..i], table)
    ensures ObjectEntry(objs[i], table).Ok? && ObjectEntry(objs[i], table).value.Some? ==>
              Managed(objs[..i + 1], table) == Ok(Managed(objs[..i], table).value + [ObjectEntry(objs[i], table).value.value])
  {
    assert objs[..i + 1][..i] == objs[..i];
  }

  lemma {:induction false} ManagedStuck(objs: seq<Obj>, table: map<nat, Iface>, i: nat)
    requires AllInTable(objs, table) && i <= |objs| && Managed(objs[..i], table).Err?
    ensures Managed(objs, table) == Managed(objs[..i], table)
    decreases |objs| - i
  {
    if i < |objs| {
      assert objs[..i + 1][..i] == objs[..i];
      ManagedStuck(objs, table, i + 1);
    } else {
      assert objs[..i] == objs;
    }
  }

  // ---------------------------------------------------------------------------------------
  // The handler

  /** The `reduce` for one object: its interfaces' entries pushed onto
      `new ARRAY('a{sa{sv}}')`. */
  method InterfacesOf(t: Tree, table: map<nat, Iface>, x: nat) returns (r: Result<Value>)
    requires t.Valid() && x < |t.names| && Bus.Covers(t.ifaces, table)
    ensures IfaceEntries(t.ifaces[x], table).Err? ==> r == Err(IfaceEntries(t.ifaces[x], table).msg)
    ensures IfaceEntries(t.ifaces[x], table).Ok? ==> r == Ok(Array("{sa{sv}}", IfaceEntries(t.ifaces[x], table).value))
  {
    var ids := t.ifaces[x];
    var shell := BySignature("a{sa{sv}}");
    EntriesShell();
    var arr := shell.value;
    for j := 0 to |ids|
      invariant InTable(ids[..j], table)
      invariant arr.Array? && arr.esig == "{sa{sv}}"
      invariant IfaceEntries(ids[..j], table) == Ok(arr.elems)
    {
      IfaceEntriesStep(ids, table, j);
      var iface := table[ids[j]];
      if |iface.definition.properties| > 0 {
        var all := Properties.GetAllOf(iface);
        if all.Err? {
          IfaceEntriesStuck(ids, table, j + 1);
          return Err(all.msg);
        }
        var entry := DictEntryOf([Text('s', iface.name), all.value], None);
        arr := Push(arr, entry.value).value;
      }
    }
    assert ids[..|ids|] == ids;
    r := Ok(arr);
  }

  /** The visit's callback on object `x`. */
  method EntryOf(t: Tree, table: map<nat, Iface>, x: nat) returns (r: Result<Option<Value>>)
    requires t.Valid() && x < |t.names| && Bus.Covers(t.ifaces, table)
    ensures InTable(t.ifaces[x], table)
    ensures r == ObjectEntry(Obj(t.PathNames(x), t.ifaces[x]), table)
  {
    ghost var o := Obj(t.PathNames(x), t.ifaces[x]);
    assert InTable(o.ids, table);
    var dp := FindByName(t.ifaces[x], table, JStr(PropertiesName));
    if dp.None? {
      return Ok(None);
    }
    var path := t.ObjectPath(x);
    var inner := InterfacesOf(t, table, x);
    if inner.Err? {
      return Err(inner.msg);
    }
    ObjectEntryShape(o, table);
    var entry := DictEntryOf([Text('o', path), inner.value], None);
    r := Ok(Some(entry.value));
  }

  lemma SnapshotCovered(t: Tree, table: map<nat, Iface>, order: seq<nat>)
    requires t.Valid() && InTree(t, order) && Bus.Covers(t.ifaces, table)
    ensures AllInTable(Snapshot(t, order), table)
  {
    forall k | 0 <= k < |order|
      ensures InTable(Snapshot(t, order)[k].ids, table)
    {
      SnapshotAt(t, order, k);
    }
  }

  /** One step of the visit: the entry of the `i`-th object, if any, pushed onto the array
      of the entries before it; an error ends the walk with that error. */
  method AddEntry(ghost objs: seq<Obj>, table: map<nat, Iface>, i: nat, e: Result<Option<Value>>, total: Value)
    returns (r: Result<Value>)
    requires AllInTable(objs, table) && i < |objs| && e == ObjectEntry(objs[i], table)
    requires total.Array? && total.esig == "{oa{sa{sv}}}" && Managed(objs[..i], table) == Ok(total.elems)
    ensures r.Err? ==> e.Err? && r == Err(e.msg) && Managed(objs, table) == Err(e.msg)
    ensures r.Ok? ==> r.value.Array? && r.value.esig == "{oa{sa{sv}}}" && Managed(objs[..i + 1], table) == Ok(r.value.elems)
  {
    ManagedStep(objs, table, i);
    if e.Err? {
      ManagedStuck(objs, table, i + 1);
      return Err(e.msg);
    }
    if e.value.Some? {
      ObjectEntryShape(objs[i], table);
      r := Ok(Push(total, e.value.value).value);
    } else {
      r := Ok(total);
    }
  }

  /** The visit's callback on the `i`-th object of the walk, and the push of its entry. */
  method VisitStep(t: Tree, table: map<nat, Iface>, order: seq<nat>, ghost objs: seq<Obj>, i: nat, total: Value)
    returns (r: Result<Value>)
    requires t.Valid() && Bus.Covers(t.ifaces, table) && InTree(t, order) && i < |order|
    requires objs == Snapshot(t, order) && AllInTable(objs, table)
    requires total.Array? && total.esig == "{oa{sa{sv}}}" && Managed(objs[..i], table) == Ok(total.elems)
    ensures r.Err? ==> Managed(objs, table) == Err(r.msg)
    ensures r.Ok? ==> r.value.Array? && r.value.esig == "{oa{sa{sv}}}" && Managed(objs[..i + 1], table) == Ok(r.value.elems)
  {
    var e := EntryOf(t, table, order[i]);
    SnapshotAt(t, order, i);
    r := AddEntry(objs, table, i, e, total);
  }

  /** `GetManagedObjects`: the visit of the subtree of `n`, pushing onto
      `new ARRAY('a{oa{sa{sv}}}')`. */
  method GetManagedObjects(t: Tree, table: map<nat, Iface>, n: nat) returns (r: Result<Value>)
    requires t.Valid() && n < |t.names| && Bus.Covers(t.ifaces, table)
    ensures r == ManagedObjects(t, table, n)
  {
    var order := t.Visit(n);
    ghost var objs := Snapshot(t, order);
    SnapshotCovered(t, table, order);
    var shell := BySignature("a{oa{sa{sv}}}");
    ManagedShell();
    var total := shell.value;
    for i := 0 to |order|
      invariant total.Array? && total.esig == "{oa{sa{sv}}}"
      invariant Managed(objs[..i], table) == Ok(total.elems)
    {
      var next := VisitStep(t, table, order, objs, i, total);
      if next.Err? {
        return next;
      }
      total := next.value;
    }
    assert objs[..|objs|] == objs;
    r := Ok(total);
  }
}
