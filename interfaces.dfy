/** Interface objects as the bus sees them. An interface is built from an introspection
    definition, which is not part of this model beyond its two queries: the arguments of a
    method (none when the method is not declared) and the declared properties in order. */
module Interfaces {
  import opened Wrappers
  import opened DBusTypes

  /** A method argument: its direction (`in` or `out`) and its type signature. */
  datatype Arg = Arg(direction: string, sig: string)

  /** A declared property: its name and its type signature. */
  datatype PropDecl = PropDecl(name: string, sig: string)

  datatype Definition = Definition(methods: map<string, seq<Arg>>, properties: seq<PropDecl>)

  /** An interface object: its name, its definition, the members that are functions on it,
      the properties defined on it (own field or getter) with their current values, and
      whether its handlers take and return plain values (`useJsType`). */
  datatype Iface = Iface(name: string, definition: Definition, handlers: set<string>,
                         values: map<string, Js>, useJsType: bool)

  const PropertiesName: string := "org.freedesktop.DBus.Properties"
  const ObjectManagerName: string := "org.freedesktop.DBus.ObjectManager"

  /** `sigs.filter(s => s.direction === dir).map(s => s.type)`. */
  function Signatures(args: seq<Arg>, dir: string): (r: seq<string>)
    ensures |r| <= |args|
    ensures forall s :: s in r ==> exists a :: a in args && a.direction == dir && a.sig == s
  {
    if args == [] then []
    else if args[0].direction == dir then [args[0].sig] + Signatures(args[1..], dir)
    else Signatures(args[1..], dir)
  }

  /** The types picked from two argument lists one after the other are those picked from
      the first, then those picked from the second: with `SignatureOne`, `Signatures` keeps
      exactly the arguments of direction `dir`, in their order. */
  lemma {:induction false} SignaturesAppend(a: seq<Arg>, b: seq<Arg>, dir: string)
    ensures Signatures(a + b, dir) == Signatures(a, dir) + Signatures(b, dir)
    decreases |a|
  {
    if a == [] {
      assert a + b == b;
    } else {
      assert (a + b)[0] == a[0] && (a + b)[1..] == a[1..] + b;
      SignaturesAppend(a[1..], b, dir);
      if a[0].direction == dir {
        assert Signatures(a + b, dir) == [a[0].sig] + Signatures(a[1..] + b, dir);
      }
    }
  }

  /** One argument contributes its type exactly when it has the direction asked for. */
  lemma SignatureOne(x: Arg, dir: string)
    ensures Signatures([x], dir) == if x.direction == dir then [x.sig] else []
  {
    assert [x][1..] == [];
  }

  /** `ifaces.find(i => i.name === name)`: the position of the first interface with that
      name. */
  function FindByName(ids: seq<nat>, table: map<nat, Iface>, name: Js): (r: Option<nat>)
    requires forall k :: 0 <= k < |ids| ==> ids[k] in table
    ensures r.Some? ==> r.value < |ids| && JStr(table[ids[r.value]].name) == name
    ensures r.Some? ==> forall k :: 0 <= k < r.value ==> JStr(table[ids[k]].name) != name
    ensures r.None? ==> forall k :: 0 <= k < |ids| ==> JStr(table[ids[k]].name) != name
  {
    if ids == [] then None
    else if JStr(table[ids[0]].name) == name then Some(0)
    else
      var r := FindByName(ids[1..], table, name);
      if r.None? then None else Some(r.value + 1)
  }

  /** `iface[prop]`: the value of a property, `undefined` when it is not defined. */
  function Property(iface: Iface, prop: string): Js
  {
    if prop in iface.values then iface.values[prop] else JUndefined
  }
}
