/** The POSIX functions of Node's `path` module that the object tree uses: `normalize`,
    `isAbsolute`, `basename` (without an extension argument) and `join`, together with the
    `split('/').filter(x => !!x)` idiom that turns an object path into its names. */
module NodePath {
  import opened Wrappers
  import opened JsStrings

  /** The segments `normalize` keeps, appended to `acc`: empty and `.` segments are dropped,
      and `..` removes the segment before it unless that one is `..` itself. Above the start
      of the path `..` is dropped for an absolute path and kept for a relative one. */
  function Resolve(segs: seq<string>, abs: bool, acc: seq<string>): seq<string>
    decreases |segs|
  {
    if segs == [] then acc
    else
      var s := segs[0];
      if s == "" || s == "." then Resolve(segs[1..], abs, acc)
      else if s == ".." then
        if acc != [] && acc[|acc| - 1] != ".." then Resolve(segs[1..], abs, acc[..|acc| - 1])
        else if abs then Resolve(segs[1..], abs, acc)
        else Resolve(segs[1..], abs, acc + [".."])
      else Resolve(segs[1..], abs, acc + [s])
  }

  /** `path.normalize`: the empty path is `.`; a leading and a trailing separator are
      kept, and an empty result is `/`, `./` or `.`. */
  function Normalize(p: string): string
  {
    if p == "" then "."
    else
      var abs := p[0] == '/';
      var trailing := p[|p| - 1] == '/';
      var body := Join(Resolve(Split(p, '/'), abs, []), "/");
      if body == "" then (if abs then "/" else if trailing then "./" else ".")
      else (if abs then "/" else "") + body + (if trailing then "/" else "")
  }

  predicate IsAbsolute(p: string)
  {
    p != [] && p[0] == '/'
  }

  /** `p` without its trailing separators. */
  function TrimSlashes(p: string): (q: string)
    ensures q <= p
    ensures q != [] ==> q[|q| - 1] != '/'
  {
    if p != [] && p[|p| - 1] == '/' then TrimSlashes(p[..|p| - 1]) else p
  }

  /** `path.basename`: the last segment once trailing separators are removed. */
  function Basename(p: string): string
  {
    var parts := Split(TrimSlashes(p), '/');
    parts[|parts| - 1]
  }

  /** `list.filter(x => !!x)` on strings: the non-empty ones, in order. */
  function NonEmpty(ss: seq<string>): (r: seq<string>)
    ensures forall s :: s in r <==> s in ss && s != ""
  {
    if ss == [] then []
    else if ss[0] == "" then NonEmpty(ss[1..])
    else [ss[0]] + NonEmpty(ss[1..])
  }

  /** The names of an object path: `dpath.split('/').filter(x => !!x)`. */
  function Names(p: string): seq<string>
  {
    NonEmpty(Split(p, '/'))
  }

  /** The root path has no names. */
  lemma RootNames()
    ensures Names("/") == []
  {
    assert Split("/", '/') == ["", ""];
  }

  /** `path.join('/', ...names)`: the non-empty arguments joined by `/`, then normalised. */
  function JoinPath(names: seq<string>): string
  {
    Normalize(Join(NonEmpty(["/"] + names), "/"))
  }

  // ---------------------------------------------------------------------------------------
  // Paths made of plain names

  /** A name that stands for itself in a path: not empty, no separator, not `.` or `..`. */
  predicate IsPlain(s: string)
  {
    s != "" && '/' !in s && s != "." && s != ".."
  }

  predicate AllPlain(ns: seq<string>)
  {
    forall i :: 0 <= i < |ns| ==> IsPlain(ns[i])
  }

  /** The object path of a list of names: `/` followed by the names joined by `/`. */
  function Slashed(ns: seq<string>): string
  {
    "/" + Join(ns, "/")
  }

  lemma {:induction false} ResolvePlain(ns: seq<string>, abs: bool, acc: seq<string>)
    requires AllPlain(ns)
    ensures Resolve(ns, abs, acc) == acc + ns
    decreases |ns|
  {
    if ns == [] {
      assert acc + ns == acc;
    } else {
      ResolvePlain(ns[1..], abs, acc + [ns[0]]);
      assert acc + [ns[0]] + ns[1..] == acc + ns;
    }
  }

  /** Splitting joined names without separators gives the names back. */
  lemma {:induction false} SplitJoined(ns: seq<string>)
    requires ns != [] && forall i :: 0 <= i < |ns| ==> '/' !in ns[i]
    ensures Split(Join(ns, "/"), '/') == ns
    decreases |ns|
  {
    if |ns| == 1 {
      SplitNone(ns[0], '/');
    } else {
      SplitJoined(ns[1..]);
      assert Join(ns, "/") == ns[0] + ['/'] + Join(ns[1..], "/");
      SplitPrefix(ns[0], '/', Join(ns[1..], "/"));
      assert [ns[0]] + ns[1..] == ns;
    }
  }

  /** The last character of joined non-empty names is the last character of the last name. */
  lemma {:induction false} JoinedLast(ns: seq<string>)
    requires ns != [] && ns[|ns| - 1] != ""
    ensures |Join(ns, "/")| > 0
    ensures Join(ns, "/")[|Join(ns, "/")| - 1] == ns[|ns| - 1][|ns[|ns| - 1]| - 1]
    decreases |ns|
  {
    if |ns| > 1 {
      JoinedLast(ns[1..]);
    }
  }

  lemma {:induction false} NonEmptyPlain(ns: seq<string>)
    requires AllPlain(ns)
    ensures NonEmpty(ns) == ns
    decreases |ns|
  {
    if ns != [] {
      NonEmptyPlain(ns[1..]);
      assert [ns[0]] + ns[1..] == ns;
    }
  }

  /** Splitting `/` followed by joined plain names. */
  lemma SplitSlashed(ns: seq<string>)
    requires ns != [] && AllPlain(ns)
    ensures Split(Slashed(ns), '/') == [""] + ns
  {
    SplitJoined(ns);
    SplitPrefix("", '/', Join(ns, "/"));
    assert "" + ['/'] + Join(ns, "/") == Slashed(ns);
  }

  /** An absolute path without a trailing separator whose kept segments are plain names
      normalises to `/` followed by those names. */
  lemma NormalizeKept(p: string, ns: seq<string>)
    requires IsAbsolute(p) && p[|p| - 1] != '/' && ns != [] && AllPlain(ns)
    requires Resolve(Split(p, '/'), true, []) == ns
    ensures Normalize(p) == Slashed(ns)
  {
    JoinedLast(ns);
  }

  /** `path.join('/', ...names)` of plain names is `/` followed by the names joined by `/`,
      and `/` for no names. */
  lemma JoinPathPlain(ns: seq<string>)
    requires AllPlain(ns)
    ensures JoinPath(ns) == if ns == [] then "/" else Slashed(ns)
  {
    NonEmptyPlain(ns);
    assert (["/"] + ns)[1..] == ns;
    assert NonEmpty(["/"] + ns) == ["/"] + ns;
    if ns == [] {
      assert Join(["/"], "/") == "/";
      assert Split("/", '/') == ["", ""];
    } else {
      DoubleSlashed(ns);
    }
  }

  /** `/`, then `/`, then plain names joined by `/` normalises to `/` followed by the names. */
  lemma DoubleSlashed(ns: seq<string>)
    requires ns != [] && AllPlain(ns)
    ensures Normalize(Join(["/"] + ns, "/")) == Slashed(ns)
  {
    var j := Join(ns, "/");
    var p := Join(["/"] + ns, "/");
    assert (["/"] + ns)[1..] == ns;
    assert p == "/" + "/" + j;
    SplitSlashed(ns);
    SplitPrefix("", '/', Slashed(ns));
    assert "" + ['/'] + Slashed(ns) == p;
    assert Split(p, '/') == [""] + ([""] + ns);
    ResolvePlain(ns, true, []);
    JoinedLast(ns);
    assert p[|p| - 1] == j[|j| - 1];
    NormalizeKept(p, ns);
  }

  /** `/` followed by plain names is a normalised absolute path; its names are the given
      names and its base name is the last of them. */
  lemma SlashedPath(ns: seq<string>)
    requires ns != [] && AllPlain(ns)
    ensures Normalize(Slashed(ns)) == Slashed(ns) && IsAbsolute(Slashed(ns))
    ensures Names(Slashed(ns)) == ns
    ensures Basename(Slashed(ns)) == ns[|ns| - 1]
  {
    SplitSlashed(ns);
    SlashedNormal(ns);
    NonEmptyPlain(ns);
    assert NonEmpty([""] + ns) == NonEmpty(ns);
    SlashedBase(ns);
  }

  lemma SlashedNormal(ns: seq<string>)
    requires ns != [] && AllPlain(ns) && Split(Slashed(ns), '/') == [""] + ns
    ensures Normalize(Slashed(ns)) == Slashed(ns)
  {
    var p := Slashed(ns);
    var j := Join(ns, "/");
    ResolvePlain(ns, true, []);
    JoinedLast(ns);
    assert p[|p| - 1] == j[|j| - 1];
    NormalizeKept(p, ns);
  }

  lemma SlashedBase(ns: seq<string>)
    requires ns != [] && AllPlain(ns) && Split(Slashed(ns), '/') == [""] + ns
    ensures Basename(Slashed(ns)) == ns[|ns| - 1]
  {
    var p := Slashed(ns);
    var j := Join(ns, "/");
    JoinedLast(ns);
    assert p[|p| - 1] == j[|j| - 1];
    assert TrimSlashes(p) == p;
  }

  // ---------------------------------------------------------------------------------------
  // Normalised absolute paths

  /** Resolving separator-free segments of an absolute path keeps only plain names. */
  lemma {:induction false} ResolveAbsolute(segs: seq<string>, acc: seq<string>)
    requires AllPlain(acc) && forall i :: 0 <= i < |segs| ==> '/' !in segs[i]
    ensures AllPlain(Resolve(segs, true, acc))
    decreases |segs|
  {
    if segs != [] {
      var s := segs[0];
      if s == "" || s == "." {
        ResolveAbsolute(segs[1..], acc);
      } else if s == ".." {
        if acc != [] && acc[|acc| - 1] != ".." {
          ResolveAbsolute(segs[1..], acc[..|acc| - 1]);
        } else {
          ResolveAbsolute(segs[1..], acc);
        }
      } else {
        assert IsPlain(s);
        ResolveAbsolute(segs[1..], acc + [s]);
      }
    }
  }

  /** Splitting joined plain names followed by a separator gives the names and an empty
      last piece. */
  lemma {:induction false} SplitTrailing(ns: seq<string>)
    requires ns != [] && AllPlain(ns)
    ensures Split(Join(ns, "/") + "/", '/') == ns + [""]
    decreases |ns|
  {
    if |ns| == 1 {
      SplitPrefix(ns[0], '/', "");
      assert ns[0] + "/" == ns[0] + ['/'] + "";
    } else {
      SplitTrailing(ns[1..]);
      assert Join(ns, "/") + "/" == ns[0] + ['/'] + (Join(ns[1..], "/") + "/");
      SplitPrefix(ns[0], '/', Join(ns[1..], "/") + "/");
      assert [ns[0]] + (ns[1..] + [""]) == ns + [""];
    }
  }

  lemma {:induction false} NonEmptyDropsLast(ss: seq<string>)
    ensures NonEmpty(ss + [""]) == NonEmpty(ss)
    decreases |ss|
  {
    if ss == [] {
      assert NonEmpty([""]) == NonEmpty([""][1..]);
    } else {
      NonEmptyDropsLast(ss[1..]);
      assert (ss + [""])[1..] == ss[1..] + [""];
    }
  }

  /** `/` followed by plain names and a trailing separator: its names are the given names
      and its base name is the last of them. */
  lemma SlashedTrailing(ns: seq<string>)
    requires ns != [] && AllPlain(ns)
    ensures Names(Slashed(ns) + "/") == ns
    ensures Basename(Slashed(ns) + "/") == ns[|ns| - 1]
  {
    TrailingNames(ns);
    TrailingBase(ns);
  }

  lemma TrailingNames(ns: seq<string>)
    requires ns != [] && AllPlain(ns)
    ensures Names(Slashed(ns) + "/") == ns
  {
    var j := Join(ns, "/");
    var all := [""] + ns + [""];
    SplitTrailing(ns);
    assert Slashed(ns) + "/" == "" + ['/'] + (j + "/");
    SplitPrefix("", '/', j + "/");
    assert Split(Slashed(ns) + "/", '/') == all;
    NonEmptyDropsLast(ns);
    NonEmptyPlain(ns);
    assert all[1..] == ns + [""];
  }

  lemma TrailingBase(ns: seq<string>)
    requires ns != [] && AllPlain(ns)
    ensures Basename(Slashed(ns) + "/") == ns[|ns| - 1]
  {
    var j := Join(ns, "/");
    JoinedLast(ns);
    assert (Slashed(ns) + "/")[..|Slashed(ns)|] == Slashed(ns);
    assert TrimSlashes(Slashed(ns) + "/") == TrimSlashes(Slashed(ns));
    assert TrimSlashes(Slashed(ns)) == Slashed(ns);
    SplitSlashed(ns);
    SlashedBase(ns);
  }

  /** A normalised absolute path other than `/` is `/` followed by the plain names it
      resolves to, possibly with one trailing separator; its names are those names and its
      base name is the last of them. */
  lemma NormalAbsolute(p: string)
    requires Normalize(p) == p && IsAbsolute(p) && p != "/"
    ensures var r := Resolve(Split(p, '/'), true, []);
      && r != [] && AllPlain(r)
      && (p == Slashed(r) || p == Slashed(r) + "/")
      && Names(p) == r && Basename(p) == r[|r| - 1]
  {
    var r := Resolve(Split(p, '/'), true, []);
    SplitJoin(p, '/');
    ResolveAbsolute(Split(p, '/'), []);
    assert r != [];
    if p[|p| - 1] == '/' {
      assert p == Slashed(r) + "/";
      SlashedTrailing(r);
    } else {
      assert p == Slashed(r);
      SlashedPath(r);
    }
  }
}
