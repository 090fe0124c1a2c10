/** The signature algebra of src/woodstock/lib/explode.js: splitting a D-Bus type signature
    into single complete types, and rejecting malformed signatures.

    `SliceSpec` and `ExplodeRange` are the specification (recursive functions); the methods
    `Slice`, `ExplodeFrom` and `Explode` follow the source's loops and are proved equal to them. */
module Signature {
  import opened Wrappers
  import opened JsStrings

  /** Codes accepted as a dict-entry key (`v` is not among them). */
  const BasicCodes: string := "ybnqiuxtdhsog"

  /** Measure used by the mutual recursion of slice and explode: characters left from `start`. */
  function Left(sig: string, start: nat): nat
  {
    if start <= |sig| then |sig| - start else 0
  }

  /** Index of the `)` that brings the bracket depth `count` back to zero, scanning [i, end). */
  function MatchParen(sig: string, i: nat, end: nat, count: nat): (r: Option<nat>)
    ensures r.Some? ==> i <= r.value < end && r.value < |sig| && sig[r.value] == ')'
    decreases end - i
  {
    if i >= end then None
    else if i < |sig| && sig[i] == '(' then MatchParen(sig, i + 1, end, count + 1)
    else if i < |sig| && sig[i] == ')' then
      (if count <= 1 then Some(i) else MatchParen(sig, i + 1, end, count - 1))
    else MatchParen(sig, i + 1, end, count)
  }

  /** The change of bracket depth at index `k`: `(` opens one level and `)` closes one. */
  function Step(sig: string, k: nat): int
  {
    if k < |sig| && sig[k] == '(' then 1
    else if k < |sig| && sig[k] == ')' then -1
    else 0
  }

  /** The bracket depth gained over [i, j): opening minus closing parentheses. */
  function Depth(sig: string, i: nat, j: nat): int
    decreases j - i
  {
    if j <= i then 0 else Step(sig, i) + Depth(sig, i + 1, j)
  }

  /** Starting at depth `count`, the `)` that `MatchParen` finds is the first index where the
      depth falls to zero; when it finds none, the depth stays above zero over the whole range. */
  lemma {:induction false} MatchParenDepth(sig: string, i: nat, end: nat, count: nat)
    requires count >= 1
    ensures MatchParen(sig, i, end, count).Some? ==>
              var p := MatchParen(sig, i, end, count).value;
              && count + Depth(sig, i, p + 1) == 0
              && forall j :: i < j <= p ==> count + Depth(sig, i, j) > 0
    ensures MatchParen(sig, i, end, count).None? ==>
              forall j :: i < j <= end ==> count + Depth(sig, i, j) > 0
    decreases end - i
  {
    if i < end {
      assert Depth(sig, i, i + 1) == Step(sig, i);
      if !(i < |sig| && sig[i] == ')' && count <= 1) {
        MatchParenDepth(sig, i + 1, end, count + Step(sig, i));
        forall j | i + 1 < j
          ensures Depth(sig, i, j) == Step(sig, i) + Depth(sig, i + 1, j)
        {
        }
      }
    }
  }

  /** Index of the first `}` in [i, end); no depth is counted. */
  function FirstBrace(sig: string, i: nat, end: nat): (r: Option<nat>)
    ensures r.Some? ==> i <= r.value < end && r.value < |sig| && sig[r.value] == '}'
    decreases end - i
  {
    if i >= end then None
    else if i < |sig| && sig[i] == '}' then Some(i)
    else FirstBrace(sig, i + 1, end)
  }

  /** One of the codes `ybnqiuxtdhsogv` that `slice` takes as a whole type by itself. */
  predicate IsSingleCode(c: char)
  {
    c == 'y' || c == 'b' || c == 'n' || c == 'q' || c == 'i' || c == 'u' || c == 'x' ||
    c == 't' || c == 'd' || c == 'h' || c == 's' || c == 'o' || c == 'g' || c == 'v'
  }

  /** Every `{` at an index in [lo, hi) directly follows an `a`. */
  predicate BracesAfterArray(sig: string, lo: nat, hi: nat)
  {
    forall k :: lo <= k < hi && k < |sig| && sig[k] == '{' ==> 0 < k && sig[k - 1] == 'a'
  }

  /** `ends` are strictly increasing indices of `sig`, all beyond `start`: the end of each
      piece is the start of the next. */
  predicate Ascending(sig: string, start: nat, ends: seq<nat>)
    decreases |ends|
  {
    ends == [] || (start < ends[0] <= |sig| && Ascending(sig, ends[0], ends[1..]))
  }

  function Last(ends: seq<nat>): nat
    requires ends != []
  {
    ends[|ends| - 1]
  }

  /** An error message of `slice` for the type starting at `start`: `${what} at position ${start}`. */
  function AtPosition(what: string, start: nat): (msg: string)
    ensures |msg| > |what| + 13 && msg[..|what|] == what && msg[|what|..|what| + 13] == " at position "
    ensures forall i :: |what| + 13 <= i < |msg| ==> '0' <= msg[i] <= '9'
    ensures DecimalValue(msg[|what| + 13..]) == start
  {
    var digits := DecimalText(start);
    DecimalRoundTrip(start);
    assert (what + " at position " + digits)[|what| + 13..] == digits;
    what + " at position " + digits
  }

  /** `invalid character ${sig[start]} at position ${start}`: a character past the end of the
      signature reads as `undefined`. */
  function InvalidCharacter(sig: string, start: nat): string
  {
    AtPosition("invalid character " + (if start < |sig| then [sig[start]] else "undefined"), start)
  }

  /** End index (exclusive) of the single complete type that `slice(sig, start, end)` finds. */
  function SliceEnd(sig: string, start: nat, end: nat): (r: Result<nat>)
    ensures r.Ok? ==> start < r.value <= |sig| && sig[r.value - 1] != 'a'
    decreases Left(sig, start), 0, 1
  {
    if start >= |sig| then Err(InvalidCharacter(sig, start))
    else if IsSingleCode(sig[start]) then Ok(start + 1)
    else if sig[start] == 'a' then SliceEnd(sig, start + 1, end)
    else if sig[start] == '(' then StructEnd(sig, start, end)
    else if sig[start] == '{' then
      if start == 0 || sig[start - 1] != 'a' then Err(AtPosition("not an array element type", start))
      else DictEntryEnd(sig, start, end)
    else Err(InvalidCharacter(sig, start))
  }

  /** The `(` case of `slice`: up to the depth-matched `)`, whose interior must explode. */
  function StructEnd(sig: string, start: nat, end: nat): (r: Result<nat>)
    requires start < |sig| && sig[start] == '('
    ensures r.Ok? ==> start + 2 <= r.value <= |sig| && sig[r.value - 1] == ')'
    decreases Left(sig, start), 0, 0
  {
    match MatchParen(sig, start + 1, end, 1)
    case None => Err(AtPosition("unmatched (", start))
    case Some(i) =>
      match ExplodeEnds(sig, start + 1, i)
      case Err(e) => Err(e)
      case Ok(_) => Ok(i + 1)
  }

  /** The `{` case of `slice`: up to the first `}`; the interior must explode to exactly two
      types, the first of which occurs in the basic codes. */
  function DictEntryEnd(sig: string, start: nat, end: nat): (r: Result<nat>)
    requires 0 < start < |sig| && sig[start] == '{' && sig[start - 1] == 'a'
    ensures r.Ok? ==> start + 2 <= r.value <= |sig| && sig[r.value - 1] == '}'
    decreases Left(sig, start), 0, 0
  {
    match FirstBrace(sig, start + 1, end)
    case None => Err(AtPosition("unmatched {", start))
    case Some(i) =>
      match ExplodeEnds(sig, start + 1, i)
      case Err(e) => Err(e)
      case Ok(ends) =>
        if |ends| != 2 then Err(AtPosition("not two single complete types", start))
        else if !IsInfix(sig[start + 1..ends[0]], BasicCodes) then Err(AtPosition("not a basic type", start))
        else Ok(i + 1)
  }

  /** The loop of `explode(sig, start, end)`, as the end index of each piece: pieces are cut
      off until the cursor reaches `end`. */
  function ExplodeEnds(sig: string, start: nat, end: nat): (r: Result<seq<nat>>)
    ensures r.Ok? ==> Ascending(sig, start, r.value)
    ensures r.Ok? ==> (r.value == [] <==> start >= end)
    ensures r.Ok? && r.value != [] ==> end <= Last(r.value) <= |sig| && sig[Last(r.value) - 1] != 'a'
    decreases Left(sig, start), 1, 0
  {
    if start >= end then Ok([])
    else
      match SliceEnd(sig, start, end)
      case Err(e) => Err(e)
      case Ok(e) =>
        match ExplodeEnds(sig, e, end)
        case Err(msg) => Err(msg)
        case Ok(rest) =>
          assert ([e] + rest)[1..] == rest;
          Ok([e] + rest)
  }

  /** The pieces of `sig` cut at `ends`, the first one starting at `start`. */
  function Pieces(sig: string, start: nat, ends: seq<nat>): (ps: seq<string>)
    requires Ascending(sig, start, ends)
    ensures |ps| == |ends|
    ensures ends != [] ==> ps[0] == sig[start..ends[0]]
    decreases |ends|
  {
    if ends == [] then [] else [sig[start..ends[0]]] + Pieces(sig, ends[0], ends[1..])
  }

  /** The piece of `sig` from `start` to a computed end index; errors pass through. */
  function Piece(sig: string, start: nat, r: Result<nat>): Result<string>
    requires r.Ok? ==> start <= r.value <= |sig|
  {
    match r
    case Err(e) => Err(e)
    case Ok(e) => Ok(sig[start..e])
  }

  /** `slice(sig, start, end)`: the first single complete type at `start`. */
  function SliceSpec(sig: string, start: nat, end: nat): Result<string>
  {
    Piece(sig, start, SliceEnd(sig, start, end))
  }

  /** `explode(sig, start, end)` for a non-zero `end`. */
  function ExplodeRange(sig: string, start: nat, end: nat): Result<seq<string>>
  {
    match ExplodeEnds(sig, start, end)
    case Err(e) => Err(e)
    case Ok(ends) => Ok(Pieces(sig, start, ends))
  }

  /** `explode(sig)`, the top-level call. */
  function ExplodeSpec(sig: string): Result<seq<string>>
  {
    if |sig| == 0 then Ok([]) else ExplodeRange(sig, 0, |sig|)
  }

  /** `list` in front of the pieces of a successful result; errors pass through. */
  function Prefixed(list: seq<string>, r: Result<seq<string>>): Result<seq<string>>
  {
    match r
    case Ok(rest) => Ok(list + rest)
    case Err(e) => Err(e)
  }

  lemma PrefixedNil(r: Result<seq<string>>)
    ensures Prefixed([], r) == r
  {
    if r.Ok? { assert [] + r.value == r.value; }
  }

  /** One turn of the explode loop: the piece sliced at `s` moves from the rest to `list`. */
  lemma PrefixedStep(sig: string, s: nat, end: nat, list: seq<string>, p: string)
    requires s < end && SliceSpec(sig, s, end) == Ok(p)
    ensures Prefixed(list, ExplodeRange(sig, s, end)) == Prefixed(list + [p], ExplodeRange(sig, s + |p|, end))
  {
    var e := SliceEnd(sig, s, end).value;
    assert e == s + |p|;
    match ExplodeEnds(sig, e, end)
    case Err(msg) =>
    case Ok(rest) =>
      assert ExplodeEnds(sig, s, end) == Ok([e] + rest);
      assert ([e] + rest)[1..] == rest;
      assert Pieces(sig, s, [e] + rest) == [p] + Pieces(sig, e, rest);
      assert list + ([p] + Pieces(sig, e, rest)) == (list + [p]) + Pieces(sig, e, rest);
  }


  /** Once the cursor reaches `end`, the pieces collected so far are the result. */
  lemma PrefixedDone(sig: string, s: nat, end: nat, list: seq<string>)
    requires s >= end
    ensures Prefixed(list, ExplodeRange(sig, s, end)) == Ok(list)
  {
    assert list + [] == list;
  }

  /** A failing `slice` at the cursor fails the whole explode loop with its message. */
  lemma PrefixedFail(sig: string, s: nat, end: nat, list: seq<string>)
    requires s < end && SliceEnd(sig, s, end).Err?
    ensures Prefixed(list, ExplodeRange(sig, s, end)) == Err(SliceEnd(sig, s, end).msg)
  {
  }

  // ---------------------------------------------------------------------------------
  // The source's loops

  /** `slice`: dispatch on the code at `start`. */
  method Slice(sig: string, start: nat, end: nat) returns (r: Result<string>)
    ensures r == SliceSpec(sig, start, end)
    decreases Left(sig, start), 0, 1
  {
    if start >= |sig| {
      return Err(InvalidCharacter(sig, start));
    }
    var c := sig[start];
    if IsSingleCode(c) {
      return Ok(sig[start..start + 1]);
    } else if c == 'a' {
      var inner := Slice(sig, start + 1, end);
      if inner.Err? { return Err(inner.msg); }
      ghost var e := SliceEnd(sig, start + 1, end).value;
      assert "a" + sig[start + 1..e] == sig[start..e];
      return Ok("a" + inner.value);
    } else if c == '(' {
      r := SliceStruct(sig, start, end);
    } else if c == '{' {
      if start == 0 || sig[start - 1] != 'a' {
        return Err(AtPosition("not an array element type", start));
      }
      r := SliceDictEntry(sig, start, end);
    } else {
      return Err(InvalidCharacter(sig, start));
    }
  }

  /** The `(` case of `slice`: count bracket depth up to the matching `)`, then check the
      interior by exploding it. */
  method SliceStruct(sig: string, start: nat, end: nat) returns (r: Result<string>)
    requires start < |sig| && sig[start] == '('
    ensures r == Piece(sig, start, StructEnd(sig, start, end))
    decreases Left(sig, start), 0, 0
  {
    var count: nat := 1;
    var i := start + 1;
    while i < end
      invariant start + 1 <= i
      invariant count >= 1
      invariant MatchParen(sig, start + 1, end, 1) == MatchParen(sig, i, end, count)
      decreases end - i
    {
      if i < |sig| && sig[i] == '(' {
        count := count + 1;
      } else if i < |sig| && sig[i] == ')' {
        if count <= 1 {
          var list := ExplodeFrom(sig, start + 1, i);
          if list.Err? { return Err(list.msg); }
          return Ok(sig[start..i + 1]);
        }
        count := count - 1;
      }
      i := i + 1;
    }
    return Err(AtPosition("unmatched (", start));
  }

  /** The `{` case of `slice` once the preceding `a` is checked: the first `}` closes the
      entry, whose interior must be exactly two types with a basic key. */
  method SliceDictEntry(sig: string, start: nat, end: nat) returns (r: Result<string>)
    requires 0 < start < |sig| && sig[start] == '{' && sig[start - 1] == 'a'
    ensures r == Piece(sig, start, DictEntryEnd(sig, start, end))
    decreases Left(sig, start), 0, 0
  {
    var i := start + 1;
    while i < end
      invariant start + 1 <= i
      invariant FirstBrace(sig, start + 1, end) == FirstBrace(sig, i, end)
      decreases end - i
    {
      if i < |sig| && sig[i] == '}' {
        var list := ExplodeFrom(sig, start + 1, i);
        if list.Err? { return Err(list.msg); }
        if |list.value| != 2 { return Err(AtPosition("not two single complete types", start)); }
        if !IsInfix(list.value[0], BasicCodes) { return Err(AtPosition("not a basic type", start)); }
        return Ok(sig[start..i + 1]);
      }
      i := i + 1;
    }
    return Err(AtPosition("unmatched {", start));
  }

  /** The `while (start < end)` loop of `explode`. */
  method ExplodeFrom(sig: string, start: nat, end: nat) returns (r: Result<seq<string>>)
    ensures r == ExplodeRange(sig, start, end)
    decreases Left(sig, start), 1, 0
  {
    var list: seq<string> := [];
    var s := start;
    PrefixedNil(ExplodeRange(sig, start, end));
    while s < end
      invariant start <= s
      invariant ExplodeRange(sig, start, end) == Prefixed(list, ExplodeRange(sig, s, end))
      decreases Left(sig, s)
    {
      var single := Slice(sig, s, end);
      if single.Err? {
        PrefixedFail(sig, s, end, list);
        return Err(single.msg);
      }
      PrefixedStep(sig, s, end, list, single.value);
      list := list + [single.value];
      s := s + |single.value|;
    }
    PrefixedDone(sig, s, end, list);
    return Ok(list);
  }

  /** `explode(sig)`: the list of single complete types of a signature. */
  method Explode(sig: string) returns (r: Result<seq<string>>)
    ensures r == ExplodeSpec(sig)
  {
    if |sig| == 0 {
      return Ok([]);
    }
    r := ExplodeFrom(sig, 0, |sig|);
  }

  // ---------------------------------------------------------------------------------
  // Properties of the signature algebra

  /** Pieces cut at ascending ends are consecutive: joined, they are the slice of `sig` from
      `start` to the last end. */
  lemma {:induction false} PiecesConcat(sig: string, start: nat, ends: seq<nat>)
    requires Ascending(sig, start, ends) && ends != []
    ensures start <= Last(ends) <= |sig|
    ensures Concat(Pieces(sig, start, ends)) == sig[start..Last(ends)]
    decreases |ends|
  {
    var e := ends[0];
    var rest := ends[1..];
    ConcatCons(sig[start..e], Pieces(sig, e, rest));
    if rest != [] {
      PiecesConcat(sig, e, rest);
      assert Last(rest) == Last(ends);
      assert sig[start..Last(ends)] == sig[start..e] + sig[e..Last(ends)];
    }
  }

  /** `explode` splits a signature without loss: joining the pieces gives the input back,
      and only `explode("")` is the empty list. */
  lemma ExplodeConcat(sig: string)
    requires ExplodeSpec(sig).Ok?
    ensures Concat(ExplodeSpec(sig).value) == sig
    ensures sig == "" <==> ExplodeSpec(sig).value == []
  {
    if sig != "" {
      var ends := ExplodeEnds(sig, 0, |sig|).value;
      PiecesConcat(sig, 0, ends);
    }
  }

  /** Every `{` inside a sliced piece follows an `a`; so does a piece's leading `{`. */
  lemma {:induction false} SliceBraces(sig: string, start: nat, end: nat)
    requires SliceEnd(sig, start, end).Ok?
    ensures BracesAfterArray(sig, start, SliceEnd(sig, start, end).value)
    decreases Left(sig, start), 0, 1
  {
    if sig[start] == 'a' {
      SliceBraces(sig, start + 1, end);
    } else if sig[start] == '(' {
      StructBraces(sig, start, end);
    } else if sig[start] == '{' {
      DictEntryBraces(sig, start, end);
    }
  }

  lemma {:induction false} StructBraces(sig: string, start: nat, end: nat)
    requires start < |sig| && sig[start] == '(' && StructEnd(sig, start, end).Ok?
    ensures BracesAfterArray(sig, start, StructEnd(sig, start, end).value)
    decreases Left(sig, start), 0, 0
  {
    var i := MatchParen(sig, start + 1, end, 1).value;
    if start + 1 < i {
      ExplodeBraces(sig, start + 1, i);
    }
  }

  lemma {:induction false} DictEntryBraces(sig: string, start: nat, end: nat)
    requires 0 < start < |sig| && sig[start] == '{' && sig[start - 1] == 'a'
    requires DictEntryEnd(sig, start, end).Ok?
    ensures BracesAfterArray(sig, start, DictEntryEnd(sig, start, end).value)
    decreases Left(sig, start), 0, 0
  {
    var i := FirstBrace(sig, start + 1, end).value;
    ExplodeBraces(sig, start + 1, i);
  }


  /** Every `{` covered by the pieces of the explode loop follows an `a`. */
  lemma {:induction false} ExplodeBraces(sig: string, start: nat, end: nat)
    requires start < end && ExplodeEnds(sig, start, end).Ok?
    ensures BracesAfterArray(sig, start, Last(ExplodeEnds(sig, start, end).value))
    decreases Left(sig, start), 1, 0
  {
    var e := SliceEnd(sig, start, end).value;
    SliceBraces(sig, start, end);
    if e < end {
      ExplodeBraces(sig, e, end);
    }
  }

  /** A `{` that does not directly follow an `a` makes the whole signature invalid. */
  lemma BraceOutsideArrayRejected(sig: string, k: nat)
    requires k < |sig| && sig[k] == '{' && (k == 0 || sig[k - 1] != 'a')
    ensures ExplodeSpec(sig).Err?
  {
    if ExplodeSpec(sig).Ok? {
      ExplodeBraces(sig, 0, |sig|);
    }
  }

  /** A signature that ends in `a` is rejected: the array has no element type. */
  lemma TrailingArrayRejected(sig: string)
    requires |sig| > 0 && sig[|sig| - 1] == 'a'
    ensures ExplodeSpec(sig).Err?
  {
  }

  /** No `}` lies between `i` and the index `FirstBrace` finds; none at all when it finds none. */
  lemma {:induction false} FirstBraceIsFirst(sig: string, i: nat, end: nat)
    ensures FirstBrace(sig, i, end).Some? ==>
      forall k :: i <= k < FirstBrace(sig, i, end).value ==> sig[k] != '}'
    ensures FirstBrace(sig, i, end).None? ==>
      forall k :: i <= k < end && k < |sig| ==> sig[k] != '}'
    decreases end - i
  {
    if i < end && !(i < |sig| && sig[i] == '}') {
      FirstBraceIsFirst(sig, i + 1, end);
    }
  }

  /** A dict entry closes at the first `}` after its `{`, whatever the nesting. */
  lemma DictEntryClosesAtFirstBrace(sig: string, start: nat, end: nat)
    requires 0 < start < |sig| && sig[start] == '{' && sig[start - 1] == 'a'
    requires DictEntryEnd(sig, start, end).Ok?
    ensures forall k :: start < k < DictEntryEnd(sig, start, end).value - 1 ==> sig[k] != '}'
  {
    FirstBraceIsFirst(sig, start + 1, end);
  }

  /** A one-character needle occurs in `hay` iff the character does. */
  lemma {:induction false} InfixSingle(c: char, hay: string)
    ensures IsInfix([c], hay) <==> c in hay
  {
    if |hay| > 0 {
      InfixSingle(c, hay[1..]);
      assert hay == [hay[0]] + hay[1..];
    }
  }

  /** The dict-entry key test accepts exactly the basic codes, which exclude `v`. */
  lemma BasicKeyTest(c: char)
    ensures IsInfix([c], BasicCodes) <==> IsSingleCode(c) && c != 'v'
  {
    InfixSingle(c, BasicCodes);
  }

  /** Pieces cut at `[e] + rest`: the first piece, then the pieces after `e`. */
  lemma PiecesCons(sig: string, start: nat, e: nat, rest: seq<nat>)
    requires Ascending(sig, start, [e] + rest)
    ensures Pieces(sig, start, [e] + rest) == [sig[start..e]] + Pieces(sig, e, rest)
  {
    assert ([e] + rest)[1..] == rest;
  }

  /** `explode` of a successful end list is its pieces. */
  lemma ExplodeFromEnds(sig: string, ends: seq<nat>)
    requires |sig| > 0 && ExplodeEnds(sig, 0, |sig|) == Ok(ends)
    ensures ExplodeSpec(sig) == Ok(Pieces(sig, 0, ends))
  {
  }

  /** Each one-character code is a complete type by itself. */
  lemma SingleCodeExplodes(c: char)
    requires IsSingleCode(c)
    ensures ExplodeSpec([c]) == Ok([[c]])
  {
    assert SliceEnd([c], 0, 1) == Ok(1);
    assert ExplodeEnds([c], 1, 1) == Ok([]);
    assert [1] + [] == [1];
    assert ExplodeEnds([c], 0, 1) == Ok([1]);
    PiecesCons([c], 0, 1, []);
    assert Pieces([c], 1, []) == [];
    assert [c][0..1] == [c];
    assert [[c]] + [] == [[c]];
    ExplodeFromEnds([c], [1]);
  }

  /** Where `explode` cuts `oa{sv}`. */
  lemma ExampleDictEnds()
    ensures ExplodeEnds("oa{sv}", 0, 6) == Ok([1, 6])
  {
    var s1 := "oa{sv}";
    assert SliceEnd(s1, 4, 5) == Ok(5);
    assert ExplodeEnds(s1, 5, 5) == Ok([]);
    assert [5] + [] == [5];
    assert ExplodeEnds(s1, 4, 5) == Ok([5]);
    assert SliceEnd(s1, 3, 5) == Ok(4);
    assert [4] + [5] == [4, 5];
    assert ExplodeEnds(s1, 3, 5) == Ok([4, 5]);
    assert FirstBrace(s1, 5, 6) == Some(5);
    assert FirstBrace(s1, 4, 6) == Some(5);
    assert FirstBrace(s1, 3, 6) == Some(5);
    BasicKeyTest('s');
    assert s1[3..4] == ['s'];
    assert DictEntryEnd(s1, 2, 6) == Ok(6);
    assert SliceEnd(s1, 1, 6) == Ok(6);
    assert ExplodeEnds(s1, 6, 6) == Ok([]);
    assert [6] + [] == [6];
    assert ExplodeEnds(s1, 1, 6) == Ok([6]);
    assert SliceEnd(s1, 0, 6) == Ok(1);
    assert [1] + [6] == [1, 6];
  }

  /** The first example of the signature tool's test script. */
  lemma ExplodeExampleDict()
    ensures ExplodeSpec("oa{sv}") == Ok(["o", "a{sv}"])
  {
    var s1 := "oa{sv}";
    ExampleDictEnds();
    PiecesCons(s1, 1, 6, []);
    PiecesCons(s1, 0, 1, [6]);
    assert Pieces(s1, 6, []) == [];
    assert s1[0..1] == "o";
    assert s1[1..6] == "a{sv}";
    assert Pieces(s1, 1, [6]) == ["a{sv}"];
    assert Pieces(s1, 0, [1, 6]) == ["o"] + ["a{sv}"];
    ExplodeFromEnds(s1, [1, 6]);
    assert ["o"] + ["a{sv}"] == ["o", "a{sv}"];
  }

  /** `a(yv)` at index 6 of `yyyyuua(yv)` runs to the end. */
  lemma ExampleHeaderFields()
    ensures SliceEnd("yyyyuua(yv)", 6, 11) == Ok(11)
  {
    var s2 := "yyyyuua(yv)";
    assert SliceEnd(s2, 9, 10) == Ok(10);
    assert ExplodeEnds(s2, 10, 10) == Ok([]);
    assert [10] + [] == [10];
    assert ExplodeEnds(s2, 9, 10) == Ok([10]);
    assert SliceEnd(s2, 8, 10) == Ok(9);
    assert [9] + [10] == [9, 10];
    assert ExplodeEnds(s2, 8, 10) == Ok([9, 10]);
    assert MatchParen(s2, 10, 11, 1) == Some(10);
    assert MatchParen(s2, 9, 11, 1) == Some(10);
    assert MatchParen(s2, 8, 11, 1) == Some(10);
    assert StructEnd(s2, 7, 11) == Ok(11);
  }

  /** One turn of the explode loop on end indices. */
  lemma ExplodeEndsCons(sig: string, start: nat, end: nat, e: nat, rest: seq<nat>)
    requires start < end && SliceEnd(sig, start, end) == Ok(e) && ExplodeEnds(sig, e, end) == Ok(rest)
    ensures ExplodeEnds(sig, start, end) == Ok([e] + rest)
  {
  }

  /** A single complete type code is a slice of length one. */
  lemma SingleCodeCons(sig: string, start: nat, end: nat, rest: seq<nat>)
    requires start < end && start < |sig| && IsSingleCode(sig[start])
    requires ExplodeEnds(sig, start + 1, end) == Ok(rest)
    ensures ExplodeEnds(sig, start, end) == Ok([start + 1] + rest)
  {
  }

  /** Three single complete type codes in a row. */
  lemma ThreeSingleCodes(sig: string, start: nat, end: nat, rest: seq<nat>)
    requires start + 3 <= end && start + 3 <= |sig|
    requires IsSingleCode(sig[start]) && IsSingleCode(sig[start + 1]) && IsSingleCode(sig[start + 2])
    requires ExplodeEnds(sig, start + 3, end) == Ok(rest)
    ensures ExplodeEnds(sig, start, end) == Ok([start + 1, start + 2, start + 3] + rest)
  {
    var r2 := [start + 3] + rest;
    SingleCodeCons(sig, start + 2, end, rest);
    var r1 := [start + 2] + r2;
    SingleCodeCons(sig, start + 1, end, r2);
    SingleCodeCons(sig, start, end, r1);
    assert [start + 1] + r1 == [start + 1, start + 2, start + 3] + rest;
  }

  /** Where `explode` cuts `yyyyuua(yv)` from index 3 on. */
  lemma ExampleHeaderTail(s2: string)
    requires s2 == "yyyyuua(yv)"
    ensures ExplodeEnds(s2, 3, 11) == Ok([4, 5, 6, 11])
  {
    ExampleHeaderFields();
    assert ExplodeEnds(s2, 11, 11) == Ok([]);
    ExplodeEndsCons(s2, 6, 11, 11, []);
    assert [11] + [] == [11];
    ThreeSingleCodes(s2, 3, 11, [11]);
    assert [4, 5, 6] + [11] == [4, 5, 6, 11];
  }

  /** Where `explode` cuts `yyyyuua(yv)`. */
  lemma ExampleHeaderEnds(s2: string)
    requires s2 == "yyyyuua(yv)"
    ensures ExplodeEnds(s2, 0, 11) == Ok([1, 2, 3, 4, 5, 6, 11])
  {
    ExampleHeaderTail(s2);
    ThreeSingleCodes(s2, 0, 11, [4, 5, 6, 11]);
    assert [1, 2, 3] + [4, 5, 6, 11] == [1, 2, 3, 4, 5, 6, 11];
  }

  /** The second example of the signature tool's test script: the message header type. */
  lemma ExplodeExampleHeader()
    ensures ExplodeSpec("yyyyuua(yv)") == Ok(["y", "y", "y", "y", "u", "u", "a(yv)"])
  {
    var s2 := "yyyyuua(yv)";
    ExampleHeaderEnds(s2);
    ExampleHeaderPieces();
    ExplodeFromEnds(s2, [1, 2, 3, 4, 5, 6, 11]);
  }

  /** The type of a header field entry, `yv`: a byte code, then a variant. */
  lemma ExplodeFieldEntry()
    ensures ExplodeSpec("yv") == Ok(["y", "v"])
  {
    var s := "yv";
    assert ExplodeEnds(s, 2, 2) == Ok([]);
    SingleCodeCons(s, 1, 2, []);
    assert [2] + [] == [2];
    SingleCodeCons(s, 0, 2, [2]);
    assert [1] + [2] == [1, 2];
    assert ExplodeEnds(s, 0, |s|) == Ok([1, 2]);
    PiecesCons(s, 1, 2, []);
    PiecesCons(s, 0, 1, [2]);
    assert Pieces(s, 2, []) == [];
    assert s[0..1] == "y" && s[1..2] == "v";
    assert Pieces(s, 1, [2]) == ["v"];
    assert Pieces(s, 0, [1, 2]) == ["y"] + ["v"];
    ExplodeFromEnds(s, [1, 2]);
    assert ["y"] + ["v"] == ["y", "v"];
  }

  lemma ExampleHeaderTailPieces()
    ensures Pieces("yyyyuua(yv)", 3, [4, 5, 6, 11]) == ["y", "u", "u", "a(yv)"]
  {
    var s2 := "yyyyuua(yv)";
    assert Pieces(s2, 11, []) == [];
    PiecesCons(s2, 6, 11, []);
    assert s2[6..11] == "a(yv)";
    assert Pieces(s2, 6, [11]) == ["a(yv)"];
    PiecesCons(s2, 5, 6, [11]);
    assert s2[5..6] == "u";
    assert Pieces(s2, 5, [6, 11]) == ["u", "a(yv)"];
    PiecesCons(s2, 4, 5, [6, 11]);
    assert s2[4..5] == "u";
    assert Pieces(s2, 4, [5, 6, 11]) == ["u", "u", "a(yv)"];
    PiecesCons(s2, 3, 4, [5, 6, 11]);
    assert s2[3..4] == "y";
    assert Pieces(s2, 3, [4, 5, 6, 11]) == ["y", "u", "u", "a(yv)"];
  }

  lemma ExampleHeaderPieces()
    ensures Pieces("yyyyuua(yv)", 0, [1, 2, 3, 4, 5, 6, 11]) == ["y", "y", "y", "y", "u", "u", "a(yv)"]
  {
    var s2 := "yyyyuua(yv)";
    var t := [4, 5, 6, 11];
    var p := ["y", "u", "u", "a(yv)"];
    ExampleHeaderTailPieces();
    assert Pieces(s2, 3, t) == p;
    var e2 := [3] + t;
    PiecesCons(s2, 2, 3, t);
    assert s2[2..3] == "y";
    var e1 := [2] + e2;
    PiecesCons(s2, 1, 2, e2);
    assert s2[1..2] == "y";
    var e0 := [1] + e1;
    PiecesCons(s2, 0, 1, e1);
    assert s2[0..1] == "y";
    assert Pieces(s2, 0, e0) == ["y"] + (["y"] + (["y"] + p));
    assert e0 == [1, 2, 3, 4, 5, 6, 11];
    assert ["y"] + (["y"] + (["y"] + p)) == ["y", "y", "y", "y", "u", "u", "a(yv)"];
  }

  /** A dict entry whose value is itself a dict is rejected, because the inner `}` closes the
      outer entry; a `v` key is rejected too. */
  lemma DictEntryQuirks()
    ensures ExplodeSpec("a{sa{sv}}").Err?
    ensures ExplodeSpec("a{vs}").Err?
  {
    var s1 := "a{sa{sv}}";
    assert FirstBrace(s1, 7, 7) == None;
    assert FirstBrace(s1, 5, 7) == None;
    assert DictEntryEnd(s1, 4, 7).Err?;
    assert SliceEnd(s1, 3, 7).Err?;
    assert ExplodeEnds(s1, 3, 7).Err?;
    assert ExplodeEnds(s1, 2, 7).Err?;
    assert FirstBrace(s1, 2, 9) == Some(7);
    assert DictEntryEnd(s1, 1, 9).Err?;
    assert ExplodeEnds(s1, 0, 9).Err?;

    var s2 := "a{vs}";
    assert ExplodeEnds(s2, 4, 4) == Ok([]);
    assert SliceEnd(s2, 3, 4) == Ok(4);
    assert [4] + [] == [4];
    assert ExplodeEnds(s2, 3, 4) == Ok([4]);
    assert SliceEnd(s2, 2, 4) == Ok(3);
    assert [3] + [4] == [3, 4];
    assert ExplodeEnds(s2, 2, 4) == Ok([3, 4]);
    assert FirstBrace(s2, 2, 5) == Some(4);
    BasicKeyTest('v');
    assert s2[2..3] == ['v'];
    assert DictEntryEnd(s2, 1, 5).Err?;
    assert ExplodeEnds(s2, 0, 5).Err?;
  }
}
