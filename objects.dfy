/** The D-Bus object tree of `dbus-object.js`. Every object of a bus lives in one `Tree`
    and is named by its index: index 0 is the bus's root object, whose `dbus` is the bus,
    and every other object is created detached (`new DBusObject(name)`). An object has a
    name, a parent (`-1` for none), its children in insertion order and its interfaces in
    insertion order; an interface is named by its identity, a number. */
module ObjectTree {
  import opened Wrappers
  import opened NodePath

  /** The index of the first object of `cs` whose name is `name` (`children.find`). */
  function FindNamed(names: seq<string>, cs: seq<nat>, name: string): (r: Option<nat>)
    requires forall i :: 0 <= i < |cs| ==> cs[i] < |names|
    ensures r.Some? ==> r.value < |cs| && names[cs[r.value]] == name
    ensures r.Some? ==> forall j :: 0 <= j < r.value ==> names[cs[j]] != name
    ensures r.None? ==> forall j :: 0 <= j < |cs| ==> names[cs[j]] != name
  {
    if cs == [] then None
    else if names[cs[0]] == name then Some(0)
    else
      var r := FindNamed(names, cs[1..], name);
      if r.None? then None else Some(r.value + 1)
  }

  /** Every child index names an object. */
  predicate WellIndexed(names: seq<string>, children: seq<seq<nat>>)
  {
    |children| == |names| &&
    forall x, i :: 0 <= x < |children| && 0 <= i < |children[x]| ==> children[x][i] < |names|
  }

  /** `route(namepath)` without `make`: from object `n`, follow for each name the first child
      with that name; none when a name has no such child. */
  function Route(names: seq<string>, children: seq<seq<nat>>, n: nat, ns: seq<string>): (r: Option<nat>)
    requires WellIndexed(names, children) && n < |names|
    ensures r.Some? ==> r.value < |names|
    ensures ns == [] ==> r == Some(n)
    decreases |ns|
  {
    if ns == [] then Some(n)
    else
      var i := FindNamed(names, children[n], ns[0]);
      if i.None? then None else Route(names, children, children[n][i.value], ns[1..])
  }

  /** Routing along `a + b` is routing along `a`, then along `b` from where it ends. */
  lemma {:induction false} RouteAppend(names: seq<string>, children: seq<seq<nat>>, n: nat, a: seq<string>, b: seq<string>)
    requires WellIndexed(names, children) && n < |names|
    ensures Route(names, children, n, a + b) ==
      if Route(names, children, n, a).None? then None
      else Route(names, children, Route(names, children, n, a).value, b)
    decreases |a|
  {
    if a == [] {
      assert a + b == b;
    } else {
      assert (a + b)[0] == a[0] && (a + b)[1..] == a[1..] + b;
      var i := FindNamed(names, children[n], a[0]);
      if i.Some? {
        RouteAppend(names, children, children[n][i.value], a[1..], b);
      }
    }
  }

  /** Routing along a non-empty list of names is one step along the first name, then routing
      along the others. */
  lemma RouteCons(names: seq<string>, children: seq<seq<nat>>, n: nat, ns: seq<string>)
    requires WellIndexed(names, children) && n < |names| && ns != []
    requires Route(names, children, n, [ns[0]]).Some?
    ensures Route(names, children, n, ns) == Route(names, children, Route(names, children, n, [ns[0]]).value, ns[1..])
  {
    RouteAppend(names, children, n, [ns[0]], ns[1..]);
    assert [ns[0]] + ns[1..] == ns;
  }

  /** Appending a child to an object keeps every route that already leads somewhere. */
  lemma {:induction false} RouteAfterAppend(names: seq<string>, children: seq<seq<nat>>, p: nat, c: nat, n: nat, ns: seq<string>)
    requires WellIndexed(names, children) && n < |names| && p < |names| && c < |names|
    requires Route(names, children, n, ns).Some?
    ensures WellIndexed(names, children[p := children[p] + [c]])
    ensures Route(names, children[p := children[p] + [c]], n, ns) == Route(names, children, n, ns)
    decreases |ns|
  {
    var children' := children[p := children[p] + [c]];
    assert WellIndexed(names, children') by {
      forall x, i | 0 <= x < |children'| && 0 <= i < |children'[x]|
        ensures children'[x][i] < |names|
      {
        if x == p && i == |children[p]| {
        } else {
          assert children'[x][i] == children[x][i];
        }
      }
    }
    if ns != [] {
      var i := FindNamed(names, children[n], ns[0]);
      FindNamedPrefix(names, children[n], children'[n], ns[0]);
      RouteAfterAppend(names, children, p, c, children[n][i.value], ns[1..]);
    }
  }

  /** A match among the first children is still the first match with more children after them. */
  lemma FindNamedPrefix(names: seq<string>, cs: seq<nat>, cs': seq<nat>, name: string)
    requires forall i :: 0 <= i < |cs'| ==> cs'[i] < |names|
    requires cs <= cs' && FindNamed(names, cs, name).Some?
    ensures FindNamed(names, cs', name) == FindNamed(names, cs, name)
  {
    var k := FindNamed(names, cs, name).value;
    assert forall j :: 0 <= j <= k ==> cs'[j] == cs[j];
    FindNamedAt(names, cs', name, k);
  }

  /** The first object with the name is found. */
  lemma {:induction false} FindNamedAt(names: seq<string>, cs: seq<nat>, name: string, k: nat)
    requires forall i :: 0 <= i < |cs| ==> cs[i] < |names|
    requires k < |cs| && names[cs[k]] == name && forall j :: 0 <= j < k ==> names[cs[j]] != name
    ensures FindNamed(names, cs, name) == Some(k)
  {
    if k > 0 {
      FindNamedAt(names, cs[1..], name, k - 1);
    }
  }

  /** Routes that lead somewhere survive objects being added and children lists growing. */
  lemma {:induction false} RouteGrow(names: seq<string>, children: seq<seq<nat>>, names': seq<string>, children': seq<seq<nat>>, n: nat, ns: seq<string>)
    requires WellIndexed(names, children) && WellIndexed(names', children') && n < |names|
    requires names <= names' && forall x :: 0 <= x < |children| ==> children[x] <= children'[x]
    requires Route(names, children, n, ns).Some?
    ensures Route(names', children', n, ns) == Route(names, children, n, ns)
    decreases |ns|
  {
    if ns != [] {
      var cs := children[n];
      assert forall j :: 0 <= j < |cs| ==> names'[cs[j]] == names[cs[j]];
      FindNamedSame(names, names', cs, ns[0]);
      FindNamedPrefix(names', cs, children'[n], ns[0]);
      var i := FindNamed(names, cs, ns[0]).value;
      RouteGrow(names, children, names', children', cs[i], ns[1..]);
    }
  }

  /** Renaming an object that is nobody's child changes no route. */
  lemma {:induction false} RouteAfterRename(names: seq<string>, children: seq<seq<nat>>, d: nat, s: string, n: nat, ns: seq<string>)
    requires WellIndexed(names, children) && n < |names| && d < |names|
    requires forall x, i :: 0 <= x < |children| && 0 <= i < |children[x]| ==> children[x][i] != d
    ensures WellIndexed(names[d := s], children)
    ensures Route(names[d := s], children, n, ns) == Route(names, children, n, ns)
    decreases |ns|
  {
    if ns != [] {
      var cs := children[n];
      assert forall j :: 0 <= j < |cs| ==> names[d := s][cs[j]] == names[cs[j]];
      FindNamedSame(names, names[d := s], cs, ns[0]);
      var i := FindNamed(names, cs, ns[0]);
      if i.Some? {
        RouteAfterRename(names, children, d, s, cs[i.value], ns[1..]);
      }
    }
  }

  lemma {:induction false} FindNamedSame(names: seq<string>, names': seq<string>, cs: seq<nat>, name: string)
    requires forall i :: 0 <= i < |cs| ==> cs[i] < |names| && cs[i] < |names'| && names[cs[i]] == names'[cs[i]]
    ensures FindNamed(names, cs, name) == FindNamed(names', cs, name)
  {
    if cs != [] {
      FindNamedSame(names, names', cs[1..], name);
    }
  }

  lemma AppendFirst<T>(a: seq<T>, b: seq<T>)
    requires b != []
    ensures a + [b[0]] + b[1..] == a + b
  {
    assert [b[0]] + b[1..] == b;
  }

  /** The objects `lo`, `lo + 1`, ..., `hi - 1`. */
  function Range(lo: nat, hi: nat): (r: seq<nat>)
    ensures |r| == if lo <= hi then hi - lo else 0
    ensures forall i :: 0 <= i < |r| ==> r[i] == lo + i
    decreases hi - lo
  {
    if lo >= hi then [] else [lo] + Range(lo + 1, hi)
  }

  /** The interfaces `s` without the first occurrence of `x` (`findIndex`, then `splice`). */
  function RemoveFirst(s: seq<nat>, x: nat): (r: seq<nat>)
  {
    if s == [] then []
    else if s[0] == x then s[1..]
    else [s[0]] + RemoveFirst(s[1..], x)
  }

  /** The index of the first occurrence of `x` in `s` (`findIndex`). */
  function IndexOf(s: seq<nat>, x: nat): (k: nat)
    requires x in s
    ensures k < |s| && s[k] == x && x !in s[..k]
  {
    if s[0] == x then 0 else 1 + IndexOf(s[1..], x)
  }

  /** Removing an interface that is present drops exactly its first occurrence and keeps
      the others in order; removing one that is absent changes nothing. */
  lemma {:induction false} RemoveFirstSpec(s: seq<nat>, x: nat)
    ensures x !in s ==> RemoveFirst(s, x) == s
    ensures x in s ==> RemoveFirst(s, x) == s[..IndexOf(s, x)] + s[IndexOf(s, x) + 1..]
  {
    if s != [] {
      RemoveFirstSpec(s[1..], x);
      if s[0] != x && x in s {
        var k := IndexOf(s[1..], x);
        assert s[..k + 1] == [s[0]] + s[1..][..k];
        assert s[k + 2..] == s[1..][k + 1..];
      } else if s[0] != x {
        assert [s[0]] + s[1..] == s;
      }
    }
  }

  /** Removing an interface just added to a list that did not hold it gives the list back. */
  lemma {:induction false} RemoveAdded(s: seq<nat>, x: nat)
    requires x !in s
    ensures RemoveFirst(s + [x], x) == s
  {
    if s != [] {
      assert (s + [x])[1..] == s[1..] + [x];
      RemoveAdded(s[1..], x);
      assert [s[0]] + s[1..] == s;
    } else {
      assert [] + [x] == [x];
    }
  }

  /** `root` and `depth` give each object its topmost ancestor and its distance from it. */
  ghost predicate Rooted(parent: seq<int>, root: seq<nat>, depth: seq<nat>)
  {
    && |root| == |parent| && |depth| == |parent|
    && (forall x {:trigger parent[x]} :: 0 <= x < |parent| ==>
          && -1 <= parent[x] < |parent| && root[x] < |parent|
          && (parent[x] < 0 ==> root[x] == x && depth[x] == 0)
          && (parent[x] >= 0 ==> root[x] == root[parent[x]] && depth[x] == depth[parent[x]] + 1))
  }

  /** `height` is a rank that falls from parent to child. */
  ghost predicate Ranked(parent: seq<int>, height: seq<nat>)
  {
    && |height| == |parent|
    && (forall x {:trigger parent[x]} :: 0 <= x < |parent| && 0 <= parent[x] < |parent| ==>
          height[x] < height[parent[x]])
  }

  /** The children lists are the inverse of the parent links. */
  ghost predicate Listed(parent: seq<int>, children: seq<seq<nat>>)
  {
    && |children| == |parent|
    && (forall x, i :: 0 <= x < |parent| && 0 <= i < |children[x]| ==>
          children[x][i] < |parent| && parent[children[x][i]] == x)
    && (forall x {:trigger parent[x]} :: 0 <= x < |parent| && 0 <= parent[x] < |parent| ==>
          x in children[parent[x]])
  }

  /** The parent links form a forest, with object 0 at the top of one of its trees. */
  ghost predicate Forest(parent: seq<int>, children: seq<seq<nat>>, root: seq<nat>, depth: seq<nat>, height: seq<nat>)
  {
    && |parent| >= 1 && parent[0] == -1
    && Rooted(parent, root, depth) && Ranked(parent, height) && Listed(parent, children)
  }

  /** A new detached object keeps the forest a forest. */
  lemma ForestNew(parent: seq<int>, children: seq<seq<nat>>, root: seq<nat>, depth: seq<nat>, height: seq<nat>)
    requires Forest(parent, children, root, depth, height)
    ensures Forest(parent + [-1], children + [[]], root + [|parent|], depth + [0], height + [0])
  {
    var n := |parent|;
    var parent', children' := parent + [-1], children + [[]];
    var root', depth', height' := root + [n], depth + [0], height + [0];
    forall x | 0 <= x < n + 1
      ensures -1 <= parent'[x] < n + 1 && root'[x] < n + 1
      ensures parent'[x] < 0 ==> root'[x] == x && depth'[x] == 0
      ensures parent'[x] >= 0 ==> root'[x] == root'[parent'[x]] && depth'[x] == depth'[parent'[x]] + 1
    {
      if x < n {
        assert parent'[x] == parent[x];
      }
    }
    forall x | 0 <= x < n + 1 && 0 <= parent'[x] < n + 1
      ensures height'[x] < height'[parent'[x]] && x in children'[parent'[x]]
    {
      assert x < n && parent'[x] == parent[x];
    }
    forall x, i | 0 <= x < n + 1 && 0 <= i < |children'[x]|
      ensures children'[x][i] < n + 1 && parent'[children'[x][i]] == x
    {
      assert x < n && children'[x] == children[x];
    }
  }

  /** The roots after the tree of `c` joins the tree of `r`. */
  function Reroot(root: seq<nat>, c: nat, r: nat): (root': seq<nat>)
    ensures |root'| == |root|
    ensures forall x :: 0 <= x < |root| ==> root'[x] == if root[x] == c then r else root[x]
  {
    seq(|root|, x requires 0 <= x < |root| => if root[x] == c then r else root[x])
  }

  /** The objects of the tree of `c` move `k` further from their root; the others keep
      their distance. */
  function Deepen(depth: seq<nat>, root: seq<nat>, c: nat, k: nat): (depth': seq<nat>)
    requires |depth| == |root|
    ensures |depth'| == |depth|
    ensures forall x :: 0 <= x < |depth| ==> depth'[x] == if root[x] == c then depth[x] + k else depth[x]
  {
    seq(|depth|, x requires 0 <= x < |depth| => if root[x] == c then depth[x] + k else depth[x])
  }

  /** The objects outside the tree of `c` rise `k` in rank; those in it keep theirs. */
  function Raise(height: seq<nat>, root: seq<nat>, c: nat, k: nat): (height': seq<nat>)
    requires |height| == |root|
    ensures |height'| == |height|
    ensures forall x :: 0 <= x < |height| ==> height'[x] == if root[x] == c then height[x] else height[x] + k
  {
    seq(|height|, x requires 0 <= x < |height| => if root[x] == c then height[x] else height[x] + k)
  }

  lemma AttachRooted(parent: seq<int>, root: seq<nat>, depth: seq<nat>, c: nat, p: nat)
    requires Rooted(parent, root, depth)
    requires c < |parent| && p < |parent| && parent[c] == -1 && root[p] != c
    ensures Rooted(parent[c := p as int], Reroot(root, c, root[p]), Deepen(depth, root, c, depth[p] + 1))
  {
    var parent' := parent[c := p as int];
    var root', depth' := Reroot(root, c, root[p]), Deepen(depth, root, c, depth[p] + 1);
    assert parent[c] == -1 && parent[p] >= -1;
    assert root[c] == c && root[p] < |parent|;
    forall x | 0 <= x < |parent|
      ensures -1 <= parent'[x] < |parent| && root'[x] < |parent|
      ensures parent'[x] < 0 ==> root'[x] == x && depth'[x] == 0
      ensures parent'[x] >= 0 ==> root'[x] == root'[parent'[x]] && depth'[x] == depth'[parent'[x]] + 1
    {
      if x != c {
        var q := parent[x];
        assert parent'[x] == q;
        if q >= 0 {
          assert root[x] == root[q];
        }
      }
    }
  }

  lemma AttachRanked(parent: seq<int>, root: seq<nat>, depth: seq<nat>, height: seq<nat>, c: nat, p: nat)
    requires Rooted(parent, root, depth) && Ranked(parent, height)
    requires c < |parent| && p < |parent| && parent[c] == -1 && root[p] != c
    ensures Ranked(parent[c := p as int], Raise(height, root, c, height[c] + 1))
  {
    var parent' := parent[c := p as int];
    var height' := Raise(height, root, c, height[c] + 1);
    assert parent[c] == -1 && parent[p] >= -1;
    assert root[c] == c;
    forall x | 0 <= x < |parent| && 0 <= parent'[x] < |parent|
      ensures height'[x] < height'[parent'[x]]
    {
      if x != c {
        var q := parent[x];
        assert parent'[x] == q && root[x] == root[q];
      }
    }
  }

  lemma AttachListed(parent: seq<int>, children: seq<seq<nat>>, c: nat, p: nat)
    requires Listed(parent, children)
    requires c < |parent| && p < |parent| && parent[c] == -1
    ensures Listed(parent[c := p as int], children[p := children[p] + [c]])
  {
    var parent', children' := parent[c := p as int], children[p := children[p] + [c]];
    forall x | 0 <= x < |parent| && 0 <= parent'[x] < |parent|
      ensures x in children'[parent'[x]]
    {
      if x == c {
        assert children'[p][|children[p]|] == c;
      } else {
        var q := parent[x];
        assert parent'[x] == q;
        assert x in children[q];
        assert x in children'[q];
      }
    }
    forall x, i | 0 <= x < |parent| && 0 <= i < |children'[x]|
      ensures children'[x][i] < |parent| && parent'[children'[x][i]] == x
    {
      if x == p && i == |children[p]| {
      } else {
        var y := children[x][i];
        assert children'[x][i] == y && parent[y] == x && y != c;
      }
    }
  }

  /** Hanging the detached tree of `c` under `p`, which lies outside it, keeps the forest
      a forest. */
  lemma ForestAttach(parent: seq<int>, children: seq<seq<nat>>, root: seq<nat>, depth: seq<nat>, height: seq<nat>, c: nat, p: nat)
    requires Forest(parent, children, root, depth, height)
    requires 0 < c < |parent| && p < |parent| && parent[c] == -1 && root[p] != c
    ensures Forest(parent[c := p as int], children[p := children[p] + [c]], Reroot(root, c, root[p]),
                   Deepen(depth, root, c, depth[p] + 1), Raise(height, root, c, height[c] + 1))
  {
    AttachRooted(parent, root, depth, c, p);
    AttachRanked(parent, root, depth, height, c, p);
    AttachListed(parent, children, c, p);
  }

  class Tree {
    var names: seq<string>
    /** The parent of each object, `-1` for none. */
    var parent: seq<int>
    var children: seq<seq<nat>>
    var ifaces: seq<seq<nat>>
    /** The object each interface was added to (`iface.dobj`). */
    var owner: map<nat, nat>
    /** The topmost ancestor of each object, its distance from it, and a rank that falls
        from parent to child; together they say that the parent links form a forest. */
    ghost var root: seq<nat>
    ghost var depth: seq<nat>
    ghost var height: seq<nat>

    ghost predicate Valid()
      reads this
    {
      && Forest(parent, children, root, depth, height)
      && |names| == |parent| && |ifaces| == |parent|
      && (forall i :: i in owner ==> owner[i] < |names|)
    }

    /** The bus's root object, with no children and no interfaces. */
    constructor ()
      ensures Valid() && names == [""] && parent == [-1] && children == [[]] && ifaces == [[]]
      ensures owner == map[]
    {
      names := [""];
      parent := [-1];
      children := [[]];
      ifaces := [[]];
      owner := map[];
      root := [0];
      depth := [0];
      height := [0];
    }

    lemma ValidIndexed()
      requires Valid()
      ensures WellIndexed(names, children)
    {
    }

    /** `visit`: the object, then the visit of each child in insertion order. */
    function Visit(n: nat): (order: seq<nat>)
      reads this
      requires Valid() && n < |names|
      ensures order != [] && order[0] == n
      ensures forall i :: 0 <= i < |order| ==> order[i] < |names|
      decreases height[n], 1
    {
      [n] + VisitFrom(n, 0)
    }

    /** The visits of the children of `n` from the `i`-th on. */
    function VisitFrom(n: nat, i: nat): (order: seq<nat>)
      reads this
      requires Valid() && n < |names| && i <= |children[n]|
      ensures forall k :: 0 <= k < |order| ==> order[k] < |names|
      decreases height[n], 0, |children[n]| - i
    {
      if i == |children[n]| then [] else Visit(children[n][i]) + VisitFrom(n, i + 1)
    }

    /** `x` is `n` or lies below it. */
    ghost predicate Below(x: nat, n: nat)
      reads this
      requires Valid() && x < |names|
      decreases depth[x]
    {
      x == n || (parent[x] >= 0 && Below(parent[x], n))
    }

    lemma {:induction false} BelowStep(x: nat, c: nat)
      requires Valid() && x < |names| && c < |names| && parent[c] >= 0 && Below(x, c)
      ensures Below(x, parent[c])
      decreases depth[x]
    {
      if x != c {
        BelowStep(parent[x], c);
      }
    }

    /** Below `n` and not `n` itself: below one of its children. */
    lemma {:induction false} BelowChild(x: nat, n: nat) returns (j: nat)
      requires Valid() && x < |names| && n < |names| && Below(x, n) && x != n
      ensures j < |children[n]| && Below(x, children[n][j])
      decreases depth[x]
    {
      var q := parent[x];
      if q == n {
        j :| 0 <= j < |children[n]| && children[n][j] == x;
      } else {
        j := BelowChild(q, n);
      }
    }

    lemma {:induction false} VisitFromHas(n: nat, i: nat, j: nat, x: nat)
      requires Valid() && n < |names| && i <= j < |children[n]| && x in Visit(children[n][j])
      ensures x in VisitFrom(n, i)
      decreases j - i
    {
      if i < j {
        VisitFromHas(n, i + 1, j, x);
      }
    }

    /** `visit` reaches exactly the objects at or below its start. */
    lemma {:induction false} VisitCovers(n: nat, x: nat)
      requires Valid() && n < |names| && x < |names|
      ensures x in Visit(n) <==> Below(x, n)
      decreases height[n], 1
    {
      if x in Visit(n) && x != n {
        VisitFromBelow(n, 0, x);
      }
      if Below(x, n) && x != n {
        var j := BelowChild(x, n);
        VisitCovers(children[n][j], x);
        VisitFromHas(n, 0, j, x);
      }
    }

    lemma {:induction false} VisitFromBelow(n: nat, i: nat, x: nat)
      requires Valid() && n < |names| && i <= |children[n]| && x < |names| && x in VisitFrom(n, i)
      ensures Below(x, n)
      decreases height[n], 0, |children[n]| - i
    {
      var c := children[n][i];
      if x in Visit(c) {
        VisitCovers(c, x);
        BelowStep(x, c);
      } else {
        VisitFromBelow(n, i + 1, x);
      }
    }

    /** The names from just below the root down to `n`. */
    function PathNames(n: nat): (ns: seq<string>)
      reads this
      requires Valid() && n < |names|
      ensures |ns| == depth[n]
      decreases depth[n]
    {
      if parent[n] < 0 then [] else PathNames(parent[n]) + [names[n]]
    }

    /** `objectPath`: walks up the parents, putting each name in front, and joins the names
        with `path.join('/', ...)`. */
    method ObjectPath(n: nat) returns (p: string)
      requires Valid() && n < |names|
      ensures p == JoinPath(PathNames(n))
    {
      var arr: seq<string> := [];
      var o: nat := n;
      while parent[o] >= 0
        invariant o < |names| && PathNames(n) == PathNames(o) + arr
        decreases depth[o]
      {
        arr := [names[o]] + arr;
        o := parent[o];
      }
      assert PathNames(o) == [] && PathNames(o) + arr == arr;
      p := JoinPath(arr);
    }

    /** A child's parent is the object it is listed under, and its names extend its parent's. */
    lemma ChildFacts(n: nat, i: nat)
      requires Valid() && n < |names| && i < |children[n]|
      ensures children[n][i] < |names| && parent[children[n][i]] == n
      ensures PathNames(children[n][i]) == PathNames(n) + [names[children[n][i]]]
      ensures height[children[n][i]] < height[n]
    {
    }

    /** Routing from `n` along `ns` ends below `n`, at an object whose names are those of
        `n` followed by `ns`. */
    lemma {:induction false} RouteNames(n: nat, ns: seq<string>)
      requires Valid() && n < |names|
      requires WellIndexed(names, children) && Route(names, children, n, ns).Some?
      ensures PathNames(Route(names, children, n, ns).value) == PathNames(n) + ns
      ensures Below(Route(names, children, n, ns).value, n)
      decreases |ns|
    {
      if ns == [] {
        assert PathNames(n) + ns == PathNames(n);
      } else {
        var i := FindNamed(names, children[n], ns[0]).value;
        ChildFacts(n, i);
        var c := children[n][i];
        var r := Route(names, children, c, ns[1..]).value;
        assert r == Route(names, children, n, ns).value;
        RouteNames(c, ns[1..]);
        AppendFirst(PathNames(n), ns);
        BelowStep(r, c);
      }
    }

    /** The object path of the object a route from the root reaches is `/` followed by the
        route's names, when they are plain names. */
    lemma RoutedPath(ns: seq<string>)
      requires Valid() && WellIndexed(names, children) && Route(names, children, 0, ns).Some?
      requires AllPlain(ns)
      ensures JoinPath(PathNames(Route(names, children, 0, ns).value)) == if ns == [] then "/" else Slashed(ns)
    {
      RouteNames(0, ns);
      assert PathNames(0) == [] && [] + ns == ns;
      JoinPathPlain(ns);
    }

    /** `this.dbus`: the parent chain ends at the bus's root object. */
    method IsMounted(n: nat) returns (b: bool)
      requires Valid() && n < |names|
      ensures b <==> root[n] == 0
    {
      var o: nat := n;
      while parent[o] >= 0
        invariant o < |names| && root[o] == root[n]
        decreases depth[o]
      {
        o := parent[o];
      }
      b := o == 0;
    }

    /** `new DBusObject(name)`: a detached object with no children and no interfaces. */
    method NewObject(name: string) returns (c: nat)
      requires Valid()
      modifies this
      ensures Valid() && c == old(|names|)
      ensures names == old(names) + [name] && parent == old(parent) + [-1]
      ensures children == old(children) + [[]] && ifaces == old(ifaces) + [[]]
      ensures owner == old(owner)
      ensures root == old(root) + [c] && depth == old(depth) + [0] && old(height) <= height
    {
      c := |names|;
      ForestNew(parent, children, root, depth, height);
      names := names + [name];
      parent := parent + [-1];
      children := children + [[]];
      ifaces := ifaces + [[]];
      root := root + [c];
      depth := depth + [0];
      height := height + [0];
    }

    /** The first half of `attach(parent)`: `c` records `p` as its parent and goes last among
        `p`'s children; the tree of `c` becomes part of the tree of `p`. */
    method Link(c: nat, p: nat)
      requires Valid() && c < |names| && p < |names| && c != 0 && parent[c] == -1 && root[p] != c
      modifies this
      ensures Valid()
      ensures names == old(names) && ifaces == old(ifaces) && owner == old(owner)
      ensures parent == old(parent)[c := p as int]
      ensures children == old(children)[p := old(children[p]) + [c]]
      ensures root == Reroot(old(root), c, old(root[p]))
      ensures depth == Deepen(old(depth), old(root), c, old(depth[p]) + 1)
    {
      ForestAttach(parent, children, root, depth, height, c, p);
      parent, children := parent[c := p], children[p := children[p] + [c]];
      root, depth, height := Reroot(root, c, root[p]), Deepen(depth, root, c, depth[p] + 1), Raise(height, root, c, height[c] + 1);
    }

    /** `attach(parent)` of a detached object `c` under `p`, outside `c`'s own tree: `c`
        records its parent and goes last among `p`'s children; when the tree now reaches the
        bus, `mounted` runs on every object of `c`'s subtree: `mounting` lists them in
        visit order. */
    method Attach(c: nat, p: nat) returns (mounting: seq<nat>)
      requires Valid() && c < |names| && p < |names| && c != 0 && parent[c] == -1 && root[p] != c
      modifies this
      ensures Valid()
      ensures names == old(names) && ifaces == old(ifaces) && owner == old(owner)
      ensures parent == old(parent)[c := p as int]
      ensures children == old(children)[p := old(children[p]) + [c]]
      ensures mounting == if old(root[p]) == 0 then Visit(c) else []
      ensures forall x :: 0 <= x < |names| && old(root[x]) != c ==> root[x] == old(root[x]) && depth[x] == old(depth[x])
      ensures root[c] == root[p] == old(root[p])
    {
      Link(c, p);
      var b := IsMounted(c);
      mounting := if b then Visit(c) else [];
    }

    /** A new object named `name`, appended to the children of `n` (`new DBusObject(name)`
        and `addChild`, as `route` does for a missing name). */
    method AddNamed(n: nat, name: string) returns (child: nat)
      requires Valid() && n < |names|
      modifies this
      ensures Valid()
      ensures names == old(names) + [name] && children == old(children)[n := old(children[n]) + [child]] + [[]]
      ensures old(parent) <= parent && old(root) <= root && old(depth) <= depth
      ensures ifaces == old(ifaces) + [[]] && owner == old(owner)
      ensures child == old(|names|) && root[child] == root[n]
    {
      assert parent[n] >= -1 && root[n] < |names|;
      child := NewObject(name);
      ghost var r1, d1 := root, depth;
      var _ := Attach(child, n);
      forall x | 0 <= x < child
        ensures root[x] == r1[x] && depth[x] == d1[x]
      {
        assert parent[x] >= -1 && r1[x] < child;
      }
    }

    /** One step of `route(namepath, true)`: the first child of `n` named `name`, or else a
        new object with that name appended to the children of `n`. */
    method ChildNamed(n: nat, name: string) returns (child: nat)
      requires Valid() && n < |names|
      modifies this
      ensures Valid()
      ensures old(names) <= names && old(parent) <= parent && old(root) <= root
      ensures old(ifaces) <= ifaces && owner == old(owner)
      ensures forall x :: 0 <= x < old(|names|) ==> old(children[x]) <= children[x]
      ensures child < |names| && root[child] == root[n]
      ensures Route(names, children, n, [name]) == Some(child)
      ensures old(FindNamed(names, children[n], name)).Some? ==> names == old(names) && children == old(children)
      ensures old(FindNamed(names, children[n], name)).None? ==> children[child] == []
    {
      var i := FindNamed(names, children[n], name);
      if i.Some? {
        child := children[n][i.value];
        ChildFacts(n, i.value);
        return;
      }
      child := AddNamed(n, name);
      forall x | 0 <= x < child
        ensures old(children[x]) <= children[x]
      {
      }
      FindNamedSame(old(names), names, old(children[n]), name);
      FindNamedAt(names, children[n], name, |old(children[n])|);
    }

    /** `route(namepath, true)`: like `Route`, but a missing name gets a new child with that
        name, appended to the object's children, and the walk goes on from it. The objects
        that existed keep their names, parents and place in the forest, and their children
        lists only grow. */
    method RouteMake(n: nat, ns: seq<string>) returns (r: nat)
      requires Valid() && n < |names|
      modifies this
      ensures Valid()
      ensures old(names) <= names && old(parent) <= parent && old(root) <= root
      ensures old(ifaces) <= ifaces && owner == old(owner)
      ensures forall x :: 0 <= x < old(|names|) ==> old(children[x]) <= children[x]
      ensures r < |names| && root[r] == root[n]
      ensures Route(names, children, n, ns) == Some(r)
      ensures old(Route(names, children, n, ns)).Some? ==>
                r == old(Route(names, children, n, ns)).value && names == old(names) && children == old(children)
      ensures old(Route(names, children, n, ns)).None? ==> children[r] == []
      decreases |ns|
    {
      if ns == [] {
        return n;
      }
      ghost var added := FindNamed(names, children[n], ns[0]).None?;
      var child := ChildNamed(n, ns[0]);
      ghost var names1, children1 := names, children;
      if added && ns[1..] != [] {
        assert children[child] == [];
        assert Route(names, children, child, ns[1..]).None?;
      }
      r := RouteMake(child, ns[1..]);
      RouteGrow(names1, children1, names, children, n, [ns[0]]);
      RouteCons(names, children, n, ns);
    }

    /** `createChild(name)`: a new object with that name, attached last among the children
        of `p`; `mounting` lists the objects whose `mounted` handler runs. */
    method CreateChild(p: nat, name: string) returns (c: nat, mounting: seq<nat>)
      requires Valid() && p < |names|
      modifies this
      ensures Valid() && c == old(|names|)
      ensures names == old(names) + [name] && ifaces == old(ifaces) + [[]] && owner == old(owner)
      ensures children == old(children)[p := old(children[p]) + [c]] + [[]]
      ensures parent == old(parent) + [p as int]
      ensures root[c] == root[p] && (root[p] == 0 <==> mounting == [c])
      ensures mounting == [] || mounting == [c]
    {
      assert parent[p] >= -1 && root[p] < |names|;
      c := NewObject(name);
      mounting := Attach(c, p);
      assert children[c] == [];
    }

    /** `dobj.name = ...`: renames an object. */
    method SetName(d: nat, name: string)
      requires Valid() && d < |names|
      modifies this
      ensures Valid() && names == old(names)[d := name]
      ensures parent == old(parent) && children == old(children) && ifaces == old(ifaces) && owner == old(owner)
      ensures root == old(root) && depth == old(depth)
    {
      names := names[d := name];
    }

    /** `addInterface(iface)`: `iface` records `n` as its object and goes last among the
        interfaces of `n`. The record is a property defined once, so adding an interface that
        was already added anywhere fails. */
    method AddInterface(n: nat, i: nat) returns (res: Result<nat>)
      requires Valid() && n < |names|
      modifies this
      ensures Valid()
      ensures names == old(names) && parent == old(parent) && children == old(children)
      ensures root == old(root) && depth == old(depth)
      ensures i in old(owner) ==> res == Err("Cannot redefine property: dobj") && unchanged(this)
      ensures i !in old(owner) ==> res == Ok(n) && owner == old(owner)[i := n] && ifaces == old(ifaces)[n := old(ifaces[n]) + [i]]
    {
      if i in owner {
        return Err("Cannot redefine property: dobj");
      }
      owner := owner[i := n];
      ifaces := ifaces[n := ifaces[n] + [i]];
      res := Ok(n);
    }

    /** `removeInterface(iface)`: drops the first occurrence of `iface` from the interfaces of
        `n`, if any. The interface keeps its record of `n`. */
    method RemoveInterface(n: nat, i: nat) returns (m: nat)
      requires Valid() && n < |names|
      modifies this
      ensures Valid() && m == n
      ensures names == old(names) && parent == old(parent) && children == old(children) && owner == old(owner)
      ensures root == old(root) && depth == old(depth)
      ensures ifaces == old(ifaces)[n := RemoveFirst(old(ifaces[n]), i)]
    {
      ifaces := ifaces[n := RemoveFirst(ifaces[n], i)];
      m := n;
    }
  }
}
