/** `org.bluez.GattService1` of `gatt-service1.js`: the interface definition, the service's
    own properties, the `Characteristics` getter, and the factory that makes the class. */
module GattService {
  import opened Wrappers
  import opened DBusTypes
  import opened Framing
  import opened NodePath
  import opened ObjectTree
  import opened Interfaces
  import opened GattCharacteristic
  import Properties
  import Bus

  const ServiceName: string := "org.bluez.GattService1"

  /** Five properties and no method. `Device` and `Includes` are declared but never given a
      value. */
  const ServiceProperties: seq<PropDecl> :=
    [PropDecl("UUID", "s"), PropDecl("Primary", "b"), PropDecl("Device", "o"),
     PropDecl("Characteristics", "ao"), PropDecl("Includes", "ao")]

  const ServiceDefinition: Definition := Definition(map[], ServiceProperties)

  /** `Primary` is declared a boolean and `Characteristics` a list of object paths. */
  lemma ServiceDeclared()
    ensures Properties.Declared(["Primary"], ServiceProperties) == [PropDecl("Primary", "b")]
    ensures Properties.Declared(["Characteristics"], ServiceProperties) == [PropDecl("Characteristics", "ao")]
  {
    var ps := ServiceProperties;
    assert Properties.FirstDecl(ps[1..], "Primary") == Some(ps[1]);
    assert Properties.FirstDecl(ps[3..], "Characteristics") == Some(ps[3]);
    assert Properties.FirstDecl(ps[2..], "Characteristics") == Some(ps[3]);
    assert Properties.FirstDecl(ps[1..], "Characteristics") == Some(ps[3]);
  }

  /** A service object: its `UUID` as given and its `Primary` flag. */
  datatype Service = Service(uuid: Js, primary: bool)

  /** The service as an interface object. `Characteristics` is a getter, modelled by
      `Characteristics`; no method of the definition is a handler. */
  function Own(s: Service): (i: Iface)
    ensures i.name == ServiceName && i.definition == ServiceDefinition && i.handlers == {}
    ensures Property(i, "Primary") == JBool(s.primary) && Property(i, "UUID") == s.uuid
    ensures Property(i, "Device") == JUndefined && Property(i, "Includes") == JUndefined
  {
    Iface(ServiceName, ServiceDefinition, {}, map["UUID" := s.uuid, "Primary" := JBool(s.primary)], false)
  }

  // ---------------------------------------------------------------------------------------
  // Construction
  // ---------------------------------------------------------------------------------------

  /** A class made by the factory: whether its prototype already has `Characteristics`. */
  datatype ServiceClass = ServiceClass(defined: bool)

  /** What the factory returns: a class none of whose objects has been made yet. */
  const FreshClass: ServiceClass := ServiceClass(false)

  /** `new GattService1(props)` as written: the constructor copies `UUID`, coerces `Primary`
      with `!!`, and then defines `Characteristics` on the prototype with a new getter. Such
      a property is not configurable, so defining it again with another getter throws. */
  function ConstructAsWritten(c: ServiceClass, props: map<string, Js>): (r: Result<(ServiceClass, Service)>)
    ensures r.Ok? <==> !c.defined
    ensures r.Err? ==> r.msg == "Cannot redefine property: Characteristics"
    ensures r.Ok? ==> r.value.0.defined && r.value.1.uuid == Opt(props, "UUID")
    ensures r.Ok? ==> (r.value.1.primary <==> Truthy(Opt(props, "Primary")))
  {
    if c.defined then Err("Cannot redefine property: Characteristics")
    else Ok((ServiceClass(true), Service(Opt(props, "UUID"), Truthy(Opt(props, "Primary")))))
  }

  /** Making services one after the other from one class, as written: the first error
      thrown, or the services made. */
  function BuildAsWritten(c: ServiceClass, ps: seq<map<string, Js>>): (r: Result<seq<Service>>)
    decreases |ps|
  {
    if ps == [] then Ok([])
    else
      var first := ConstructAsWritten(c, ps[0]);
      if first.Err? then Err(first.msg)
      else
        var rest := BuildAsWritten(first.value.0, ps[1..]);
        if rest.Err? then rest else Ok([first.value.1] + rest.value)
  }

  /** A class serves one object only: the second `new` throws. */
  lemma SecondServiceRefused(p: map<string, Js>, q: map<string, Js>)
    ensures BuildAsWritten(FreshClass, [p]).Ok?
    ensures BuildAsWritten(FreshClass, [p, q]) == Err("Cannot redefine property: Characteristics")
  {
    assert [p, q][1..] == [q];
  }

  /** Corrected construction: `Characteristics` is defined on the prototype once, by the
      factory, so the constructor only sets the two fields. */
  function Construct(props: map<string, Js>): (s: Service)
    ensures s.uuid == Opt(props, "UUID") && (s.primary <==> Truthy(Opt(props, "Primary")))
    ensures forall c :: ConstructAsWritten(c, props).Ok? ==> ConstructAsWritten(c, props).value.1 == s
  {
    Service(Opt(props, "UUID"), Truthy(Opt(props, "Primary")))
  }

  /** Making services one after the other with the corrected constructor: one service per
      set of properties, each with its own `UUID` and coerced `Primary`. */
  function Build(ps: seq<map<string, Js>>): (ss: seq<Service>)
    ensures |ss| == |ps|
    ensures forall k :: 0 <= k < |ps| ==> ss[k].uuid == Opt(ps[k], "UUID")
    ensures forall k :: 0 <= k < |ps| ==> (ss[k].primary <==> Truthy(Opt(ps[k], "Primary")))
  {
    if ps == [] then [] else [Construct(ps[0])] + Build(ps[1..])
  }

  /** The corrected constructor agrees with the one as written wherever that one succeeds. */
  lemma {:induction false} BuildAgrees(c: ServiceClass, ps: seq<map<string, Js>>)
    requires BuildAsWritten(c, ps).Ok?
    ensures BuildAsWritten(c, ps).value == Build(ps)
    decreases |ps|
  {
    if ps != [] {
      BuildAgrees(ConstructAsWritten(c, ps[0]).value.0, ps[1..]);
    }
  }

  // ---------------------------------------------------------------------------------------
  // The Characteristics getter
  // ---------------------------------------------------------------------------------------

  /** Object `x` has an interface named `org.bluez.GattCharacteristic1`. */
  ghost predicate HasCharacteristic(t: Tree, table: map<nat, Iface>, x: nat)
    reads t
    requires t.Valid() && x < |t.names| && Bus.Covers(t.ifaces, table)
  {
    exists k :: 0 <= k < |t.ifaces[x]| && table[t.ifaces[x][k]].name == CharacteristicName
  }

  /** The paths of the children of `n` from the `i`-th on that carry a characteristic, in
      child order: `children.filter(obj => obj.ifaces.find(...))` mapped to object paths. */
  function CharacteristicsFrom(t: Tree, table: map<nat, Iface>, n: nat, i: nat): (ps: seq<string>)
    reads t
    requires t.Valid() && n < |t.names| && i <= |t.children[n]| && Bus.Covers(t.ifaces, table)
    ensures |ps| <= |t.children[n]| - i
    decreases |t.children[n]| - i
  {
    if i == |t.children[n]| then []
    else
      t.ChildFacts(n, i);
      var c := t.children[n][i];
      var rest := CharacteristicsFrom(t, table, n, i + 1);
      if FindByName(t.ifaces[c], table, JStr(CharacteristicName)).Some? then [JoinPath(t.PathNames(c))] + rest
      else rest
  }

  /** The `Characteristics` getter of the service interface `id`: the paths of the children
      of its object that carry a characteristic. */
  function Characteristics(t: Tree, table: map<nat, Iface>, id: nat): (r: Result<seq<string>>)
    reads t
    requires t.Valid() && Bus.Covers(t.ifaces, table)
    ensures r.Err? <==> id !in t.owner
    ensures r.Err? ==> r.msg == "Cannot read property 'children' of undefined"
    ensures r.Ok? ==> |r.value| <= |t.children[t.owner[id]]|
  {
    if id !in t.owner then Err("Cannot read property 'children' of undefined")
    else Ok(CharacteristicsFrom(t, table, t.owner[id], 0))
  }

  /** `find` by name succeeds exactly when some interface of the object has that name. */
  lemma CharacteristicFound(t: Tree, table: map<nat, Iface>, x: nat)
    requires t.Valid() && x < |t.names| && Bus.Covers(t.ifaces, table)
    ensures FindByName(t.ifaces[x], table, JStr(CharacteristicName)).Some? <==> HasCharacteristic(t, table, x)
  {
    var f := FindByName(t.ifaces[x], table, JStr(CharacteristicName));
    if f.Some? {
      assert table[t.ifaces[x][f.value]].name == CharacteristicName;
    } else {
      forall k | 0 <= k < |t.ifaces[x]|
        ensures table[t.ifaces[x][k]].name != CharacteristicName
      {
        assert JStr(table[t.ifaces[x][k]].name) != JStr(CharacteristicName);
      }
    }
  }

  /** The `j`-th child of `n` carries a characteristic and `p` is its path: the service's
      path with the child's name added. */
  ghost predicate CharacteristicAt(t: Tree, table: map<nat, Iface>, n: nat, j: nat, p: string)
    reads t
    requires t.Valid() && n < |t.names| && Bus.Covers(t.ifaces, table)
  {
    && j < |t.children[n]| && t.children[n][j] < |t.names|
    && HasCharacteristic(t, table, t.children[n][j])
    && p == JoinPath(t.PathNames(n) + [t.names[t.children[n][j]]])
  }

  /** Every listed path is that of a child from the `i`-th on that carries a characteristic. */
  lemma {:induction false} ListedChild(t: Tree, table: map<nat, Iface>, n: nat, i: nat, p: string) returns (j: nat)
    requires t.Valid() && n < |t.names| && i <= |t.children[n]| && Bus.Covers(t.ifaces, table)
    requires p in CharacteristicsFrom(t, table, n, i)
    ensures i <= j && CharacteristicAt(t, table, n, j, p)
    decreases |t.children[n]| - i
  {
    t.ChildFacts(n, i);
    var c := t.children[n][i];
    CharacteristicFound(t, table, c);
    if FindByName(t.ifaces[c], table, JStr(CharacteristicName)).Some? && p == JoinPath(t.PathNames(c)) {
      j := i;
    } else {
      j := ListedChild(t, table, n, i + 1, p);
    }
  }

  /** The path of every child from the `i`-th on that carries a characteristic is listed. */
  lemma {:induction false} ChildListed(t: Tree, table: map<nat, Iface>, n: nat, i: nat, j: nat, p: string)
    requires t.Valid() && n < |t.names| && i <= j && Bus.Covers(t.ifaces, table)
    requires CharacteristicAt(t, table, n, j, p)
    ensures p in CharacteristicsFrom(t, table, n, i)
    decreases j - i
  {
    t.ChildFacts(n, i);
    var c := t.children[n][i];
    CharacteristicFound(t, table, c);
    if i < j {
      ChildListed(t, table, n, i + 1, j, p);
    }
  }

  /** `Characteristics` lists a path exactly when it is the path of a child of the service's
      object that carries a characteristic. */
  lemma CharacteristicsListed(t: Tree, table: map<nat, Iface>, id: nat, p: string)
    requires t.Valid() && Bus.Covers(t.ifaces, table) && id in t.owner
    ensures p in Characteristics(t, table, id).value <==> exists j :: CharacteristicAt(t, table, t.owner[id], j, p)
  {
    if p in Characteristics(t, table, id).value {
      var j := ListedChild(t, table, t.owner[id], 0, p);
    }
    if j :| CharacteristicAt(t, table, t.owner[id], j, p) {
      ChildListed(t, table, t.owner[id], 0, j, p);
    }
  }
}
