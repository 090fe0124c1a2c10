/** The D-Bus type system of `dbus-types.js`: typed values, their construction from a signature
    and from plain values, `push`, `eval`, and the wire encoding (`marshal`) and decoding
    (`unmarshal`) as functions on byte sequences. The methods that work on a buffer in place
    are in module `Marshalling`. */
module DBusTypes {
  import opened Wrappers
  import opened Octets
  import Signature

  // ---------------------------------------------------------------------------------------
  // Type codes

  /** The codes of the fixed-size types. */
  predicate IsFixed(c: char)
  {
    c == 'y' || c == 'b' || c == 'n' || c == 'q' || c == 'i' || c == 'u' || c == 'x' || c == 't' || c == 'd' || c == 'h'
  }

  /** The codes of the string-like types. */
  predicate IsStringLike(c: char)
  {
    c == 's' || c == 'o' || c == 'g'
  }

  type FixedCode = c: char | IsFixed(c) witness 'y'
  type TextCode = c: char | IsStringLike(c) witness 's'

  /** The alignment of each type code, 0 for a character that is no type code. */
  function Align(c: char): (r: nat)
    ensures r == 0 || IsAlign(r)
  {
    match c
    case 'y' => 1 case 'g' => 1 case 'v' => 1
    case 'n' => 2 case 'q' => 2
    case 'i' => 4 case 'u' => 4 case 'b' => 4 case 'h' => 4
    case 's' => 4 case 'o' => 4 case 'a' => 4
    case 'x' => 8 case 't' => 8 case 'd' => 8 case '(' => 8 case '{' => 8
    case _ => 0
  }

  /** A character the type factory maps to a type. */
  predicate IsCode(c: char)
  {
    Align(c) != 0
  }

  /** The size in bytes of a fixed type. */
  function Size(c: FixedCode): (r: nat)
    ensures r == Align(c)
  {
    match c
    case 'y' => 1
    case 'n' => 2 case 'q' => 2
    case 'i' => 4 case 'u' => 4 case 'b' => 4 case 'h' => 4
    case _ => 8
  }

  /** The container codes: ARRAY, STRUCT, DICT_ENTRY, VARIANT. */
  predicate IsContainer(c: char)
  {
    c == 'a' || c == '(' || c == '{' || c == 'v'
  }

  lemma CodeKinds(c: char)
    ensures IsCode(c) <==> IsFixed(c) || IsStringLike(c) || IsContainer(c)
  {
  }

  /** The key signatures a DICT_ENTRY accepts (`basicTypeCodes`). */
  predicate IsBasicKey(s: string)
  {
    |s| == 1 && (IsFixed(s[0]) || IsStringLike(s[0]))
  }

  // ---------------------------------------------------------------------------------------
  // Values

  /** The plain JavaScript values that TYPE objects are built from and evaluate to. `JNum`
      holds an integer-valued number; every other number, object or function is `JOther`. */
  datatype Js =
    | JUndefined
    | JNum(n: int)
    | JBig(n: int)
    | JBool(b: bool)
    | JStr(s: string)
    | JArr(items: seq<Js>)
    | JOther

  /** A TYPE object.
      - `Int`: a fixed type with a value; `big` is set when the value is a bigint.
      - `Unset`: a basic type constructed without a value (it waits for `unmarshal`).
      - `Text`: STRING, OBJECT_PATH or SIGNATURE.
      - `Array`: signature `'a' + esig`.
      - `Struct`: STRUCT (`sig` starts with `(`) or DICT_ENTRY (`sig` starts with `{`).
      - `Variant`: either empty or `[SIGNATURE, inner]`. */
  datatype Value =
    | Int(code: FixedCode, n: int, big: bool)
    | Unset(ucode: char)
    | Text(tcode: TextCode, s: string)
    | Array(esig: string, elems: seq<Value>)
    | Struct(sig: string, esigs: seq<string>, elems: seq<Value>)
    | Variant(elems: seq<Value>)

  /** `signature()`. */
  function Sig(v: Value): string
  {
    match v
    case Int(c, _, _) => [c]
    case Unset(c) => [c]
    case Text(c, _) => [c]
    case Array(esig, _) => "a" + esig
    case Struct(sig, _, _) => sig
    case Variant(_) => "v"
  }

  function Sigs(vs: seq<Value>): (r: seq<string>)
    ensures |r| == |vs| && forall i :: 0 <= i < |vs| ==> r[i] == Sig(vs[i])
  {
    if vs == [] then [] else [Sig(vs[0])] + Sigs(vs[1..])
  }

  /** `eval()`: BOOLEAN evaluates to a boolean (`!!this.value`), containers to the list of
      their elements' values. */
  function Eval(v: Value): Js
  {
    match v
    case Int(c, n, big) => if c == 'b' then JBool(n != 0) else if big then JBig(n) else JNum(n)
    case Unset(c) => if c == 'b' then JBool(false) else JUndefined
    case Text(_, s) => JStr(s)
    case Array(_, elems) => JArr(EvalAll(elems))
    case Struct(_, _, elems) => JArr(EvalAll(elems))
    case Variant(elems) => JArr(EvalAll(elems))
  }

  function EvalAll(vs: seq<Value>): (r: seq<Js>)
    ensures |r| == |vs|
  {
    if vs == [] then [] else [Eval(vs[0])] + EvalAll(vs[1..])
  }

  // ---------------------------------------------------------------------------------------
  // Construction

  /** The range a fixed type accepts for a JavaScript number, by signedness and bit width;
      `None` for the 64-bit types, whose constructor throws `invalid bits` on a number. */
  function NumberRange(c: FixedCode): Option<(int, int)>
  {
    match c
    case 'y' => Some((0, 0xff))
    case 'n' => Some((-0x8000, 0x7fff))
    case 'q' => Some((0, 0xffff))
    case 'i' => Some((-0x8000_0000, 0x7fff_ffff))
    case 'u' => Some((0, 0xffff_ffff))
    case 'h' => Some((0, 0xffff_ffff))
    case 'b' => Some((0, 1))
    case _ => None
  }

  /** The signed fixed types. */
  predicate IsSigned(c: char)
  {
    c == 'n' || c == 'i' || c == 'x'
  }

  /** The FIXED_TYPE constructor, after BYTE's one-character-string and BOOLEAN's
      boolean conversions. DOUBLE has no sign, so it skips every range check. */
  function NewFixed(c: FixedCode, j: Js): (r: Result<Value>)
  {
    var j := if c == 'y' && j.JStr? && |j.s| == 1 then JNum(ByteOf(j.s[0]) as int)
             else if c == 'b' && j.JBool? then JNum(if j.b then 1 else 0)
             else j;
    match j
    case JUndefined => Ok(Unset(c))
    case JNum(n) =>
      if c == 'd' then Ok(Int(c, n, false))
      else if NumberRange(c).None? then Err("invalid bits")
      else if n < NumberRange(c).value.0 || n > NumberRange(c).value.1 then Err("out of range")
      else Ok(Int(c, n, false))
    case JBig(n) =>
      if c == 'd' then Err("no sign for bigint")
      else if IsSigned(c) && (n < -0x8000_0000_0000_0000 || n > 0x7fff_ffff_ffff_ffff) then Err("out of range")
      else if !IsSigned(c) && (n < 0 || n > 0xffff_ffff_ffff_ffff) then Err("out of range")
      else Ok(Int(c, n, true))
    case _ => Err("invalid value type")
  }

  /** What the FIXED_TYPE constructors accept: nothing, a number within the type's bit-width
      range (any number for DOUBLE, none for the 64-bit types), a bigint within the 64-bit
      range of the type's signedness, a one-character string for BYTE and a boolean for
      BOOLEAN; what they build carries the type's own code. */
  lemma NewFixedAccepts(c: FixedCode, j: Js)
    ensures NewFixed(c, j).Ok? ==> Sig(NewFixed(c, j).value) == [c]
    ensures j.JUndefined? ==> NewFixed(c, j) == Ok(Unset(c))
    ensures j.JNum? && NumberRange(c).Some? ==>
      (NewFixed(c, j).Ok? <==> NumberRange(c).value.0 <= j.n <= NumberRange(c).value.1)
    ensures j.JNum? && (c == 'x' || c == 't') ==> NewFixed(c, j) == Err("invalid bits")
    ensures j.JBig? && c != 'd' ==>
      (NewFixed(c, j).Ok? <==> if IsSigned(c) then -0x8000_0000_0000_0000 <= j.n <= 0x7fff_ffff_ffff_ffff
                               else 0 <= j.n <= 0xffff_ffff_ffff_ffff)
    ensures c == 'y' && j.JStr? && |j.s| == 1 ==> NewFixed(c, j) == Ok(Int('y', ByteOf(j.s[0]) as int, false))
    ensures c == 'b' && j.JBool? ==> NewFixed(c, j) == Ok(Int('b', if j.b then 1 else 0, false))
    ensures j.JStr? && !(c == 'y' && |j.s| == 1) ==> NewFixed(c, j) == Err("invalid value type")
  {
  }

  /** The STRING_LIKE_TYPE constructor. */
  function NewText(c: TextCode, j: Js): (r: Result<Value>)
    ensures r.Ok? <==> j.JStr? || j.JUndefined?
    ensures j.JStr? ==> r == Ok(Text(c, j.s))
  {
    match j
    case JStr(s) => Ok(Text(c, s))
    case JUndefined => Ok(Unset(c))
    case _ => Err("value not a string")
  }

  /** The STRUCT and DICT_ENTRY signature test `/^\(.+\)$/` (resp. braces): `.` matches no
      line terminator. */
  predicate Bracketed(sig: string, open: char, close: char)
  {
    |sig| >= 3 && sig[0] == open && sig[|sig| - 1] == close &&
    forall k :: 1 <= k < |sig| - 1 ==> sig[k] != '\n' && sig[k] != '\r' && sig[k] != '\U{2028}' && sig[k] != '\U{2029}'
  }

  /** The signature between the outer brackets. */
  function Interior(sig: string): string
    requires |sig| >= 2
  {
    sig[1..|sig| - 1]
  }

  /** The explode of a non-empty interior is non-empty, and each part is shorter than the
      whole signature. */
  lemma InteriorParts(sig: string)
    requires |sig| >= 3 && Signature.ExplodeSpec(Interior(sig)).Ok?
    ensures Signature.ExplodeSpec(Interior(sig)).value != []
    ensures forall i :: 0 <= i < |Signature.ExplodeSpec(Interior(sig)).value| ==>
      |Signature.ExplodeSpec(Interior(sig)).value[i]| < |sig|
  {
    Signature.ExplodeConcat(Interior(sig));
    ConcatBound(Signature.ExplodeSpec(Interior(sig)).value);
  }

  /** `constructBySignature` of each container, reached through `new TYPE(sig)`. */
  function BySignature(sig: string): (r: Result<Value>)
    requires sig != [] && IsContainer(sig[0])
    ensures r.Ok? ==> Sig(r.value) == sig
    ensures r.Ok? && r.value.Array? ==> r.value.esig == sig[1..] && r.value.elems == []
    ensures r.Ok? && r.value.Struct? ==> r.value.elems == [] && r.value.esigs != []
    ensures r.Ok? && r.value.Struct? ==> forall i :: 0 <= i < |r.value.esigs| ==> |r.value.esigs[i]| < |sig|
    ensures r.Ok? && r.value.Variant? ==> r.value.elems == []
    ensures sig[0] == 'a' <==> r.Ok? && r.value.Array?
  {
    if sig[0] == 'a' then
      Ok(Array(sig[1..], []))
    else if sig[0] == '(' then
      if !Bracketed(sig, '(', ')') then Err("invalid STRUCT signature")
      else
        var esigs :- Signature.ExplodeSpec(Interior(sig));
        InteriorParts(sig);
        Ok(Struct(sig, esigs, []))
    else if sig[0] == '{' then
      if !Bracketed(sig, '{', '}') then Err("invalid DICT_ENTRY signature")
      else
        var esigs :- Signature.ExplodeSpec(Interior(sig));
        if |esigs| != 2 then Err("dict entry requires exactly two elements as key value")
        else if !IsBasicKey(esigs[0]) then Err("dict entry key must be of a basic type")
        else
          InteriorParts(sig);
          Ok(Struct(sig, esigs, []))
    else if sig == "v" then Ok(Variant([]))
    else Err("elems contains non-TYPE object")
  }

  /** `new TYPE(sig)` and `new TYPE(sig, value)`: the type is chosen by the first character
      of `sig` alone; a container takes a signature and a list of plain values. */
  function New(sig: string, j: Js): (r: Result<Value>)
    decreases j, 1
  {
    if sig == [] || !IsCode(sig[0]) then Err("bad sig")
    else if IsFixed(sig[0]) then NewFixed(sig[0], j)
    else if IsStringLike(sig[0]) then NewText(sig[0], j)
    else if j.JUndefined? then BySignature(sig)
    else if j.JArr? then ByValues(sig, j)
    else Err("bad arg number")
  }

  /** `constructByValues` of each container. STRUCT throws; DICT_ENTRY does not check its key
      type here; VARIANT takes `[signature, value]`. */
  function ByValues(sig: string, j: Js): (r: Result<Value>)
    requires sig != [] && IsContainer(sig[0]) && j.JArr?
    decreases j, 0
  {
    var items := j.items;
    if sig[0] == 'a' then
      var elems :- NewAll(sig[1..], j, 0);
      Ok(Array(sig[1..], elems))
    else if sig[0] == '(' then Err("not implemented, yet")
    else if sig[0] == '{' then
      if !Bracketed(sig, '{', '}') then Err("invalid DICT_ENTRY signature")
      else
        var esigs :- Signature.ExplodeSpec(Interior(sig));
        if |items| != 2 || |esigs| != 2 then Err("dict entry requires exactly two elements as key value")
        else
          var key :- New(esigs[0], items[0]);
          var val :- New(esigs[1], items[1]);
          Ok(Struct(sig, esigs, [key, val]))
    else if sig != "v" then Err("invalid signature")
    else if |items| != 2 then Err("VARIANT reqruires exactly two values as signature and value")
    else if !items[0].JStr? then Err("value not a string")
    else
      var inner :- New(items[0].s, items[1]);
      Ok(Variant([Text('g', items[0].s), inner]))
  }

  /** `vals.map(v => new TYPE(esig, v))` from index `i` on. */
  function NewAll(esig: string, j: Js, i: nat): (r: Result<seq<Value>>)
    requires j.JArr? && i <= |j.items|
    ensures r.Ok? ==> |r.value| == |j.items| - i
    decreases j, 0, |j.items| - i
  {
    if i == |j.items| then Ok([])
    else
      var e :- New(esig, j.items[i]);
      var rest :- NewAll(esig, j, i + 1);
      Ok([e] + rest)
  }

  /** The text of the `signature` methods, which is what `String(e.signature)` gives when the
      method is referenced without being called. */
  const BasicSignatureText: string := "signature () {\n    return this._code\n  }"
  const ContainerSignatureText: string := "signature () {\n    return this.sig\n  }"

  function UncalledSignature(v: Value): string
  {
    if v.Array? || v.Struct? || v.Variant? then ContainerSignatureText else BasicSignatureText
  }

  function UncalledSignatures(vs: seq<Value>): (r: seq<string>)
    ensures |r| == |vs|
  {
    if vs == [] then [] else [UncalledSignature(vs[0])] + UncalledSignatures(vs[1..])
  }

  /** `push`: ARRAY checks the element signature; STRUCT and DICT_ENTRY fill their element
      positions in order. The other types have no `push`. */
  function Push(v: Value, e: Value): (r: Result<Value>)
  {
    match v
    case Array(esig, elems) =>
      if Sig(e) != esig then Err("signature mismatch") else Ok(Array(esig, elems + [e]))
    case Struct(sig, esigs, elems) =>
      if |elems| >= |esigs| then Err("elems full")
      else if Sig(e) != esigs[|elems|] then Err("signature mismatch")
      else Ok(Struct(sig, esigs, elems + [e]))
    case _ => Err("push is not a function")
  }

  /** `elems.forEach(e => this.push(e))`. */
  function PushAll(v: Value, es: seq<Value>): (r: Result<Value>)
    decreases |es|
  {
    if es == [] then Ok(v)
    else
      var v' :- Push(v, es[0]);
      PushAll(v', es[1..])
  }

  /** Pushing elements whose signatures are the next element signatures of a STRUCT fills
      those positions in order. */
  lemma {:induction false} PushAllFills(sig: string, esigs: seq<string>, pre: seq<Value>, es: seq<Value>)
    requires |pre| + |es| <= |esigs|
    requires forall k :: 0 <= k < |es| ==> Sig(es[k]) == esigs[|pre| + k]
    ensures PushAll(Struct(sig, esigs, pre), es) == Ok(Struct(sig, esigs, pre + es))
    decreases |es|
  {
    if es == [] {
      assert pre + es == pre;
    } else {
      assert Sig(es[0]) == esigs[|pre|];
      assert Push(Struct(sig, esigs, pre), es[0]) == Ok(Struct(sig, esigs, pre + [es[0]]));
      forall k | 0 <= k < |es[1..]|
        ensures Sig(es[1..][k]) == esigs[|pre + [es[0]]| + k]
      {
        assert es[1..][k] == es[k + 1];
      }
      PushAllFills(sig, esigs, pre + [es[0]], es[1..]);
      assert pre + [es[0]] + es[1..] == pre + es;
    }
  }

  /** `new ARRAY(elems, sig)`. Without a signature the slice of `undefined` throws. */
  function ArrayOf(elems: seq<Value>, sig: Option<string>): (r: Result<Value>)
  {
    if elems == [] then
      if sig.None? then Err("cannot read property of undefined")
      else if sig.value == [] || sig.value[0] != 'a' then Err("not an ARRAY signature")
      else Ok(Array(sig.value[1..], []))
    else
      var esig := Sig(elems[0]);
      if exists i :: 0 <= i < |elems| && Sig(elems[i]) != esig then Err("ARRAY elements must have the same signature")
      else if sig.None? then Err("cannot read property of undefined")
      else if sig.value == [] || esig != sig.value[1..] then Err("ARRAY elements do not match given signature")
      else Ok(Array(esig, elems))
  }

  /** `new STRUCT(elems, sig)`. Without a signature (or with the empty one, which is falsy)
      the element signatures are the uncalled `signature` methods, so `sig` is not a type
      signature. */
  function StructOf(elems: seq<Value>, sig: Option<string>): (r: Result<Value>)
  {
    if sig.Some? && sig.value != [] then
      if sig.value[0] != '(' then Err("invalid STRUCT signature")
      else
        var shell :- BySignature(sig.value);
        PushAll(shell, elems)
    else
      var esigs := UncalledSignatures(elems);
      Ok(Struct("(" + Concat(esigs) + ")", esigs, elems))
  }

  /** `new DICT_ENTRY(elems, sig)`. The empty signature is falsy and counts as none. */
  function DictEntryOf(elems: seq<Value>, sig: Option<string>): (r: Result<Value>)
  {
    if sig.Some? && sig.value != [] then
      if sig.value[0] != '{' then Err("invalid DICT_ENTRY signature")
      else
        var shell :- BySignature(sig.value);
        PushAll(shell, elems)
    else if |elems| != 2 then Err("dict entry requires exactly two elements as key-value")
    else if !IsBasicKey(Sig(elems[0])) then Err("dict entry key must be of a basic type")
    else
      var esigs := [Sig(elems[0]), Sig(elems[1])];
      Ok(Struct("{" + esigs[0] + esigs[1] + "}", esigs, elems))
  }

  /** `new VARIANT(elem)`: the inner value's signature, then the value. A variant around a
      well-formed value with an ASCII, valid signature is well-formed. */
  function VariantOf(e: Value): (r: Value)
    ensures WellFormed(e) && IsAscii(Sig(e)) && Signature.ExplodeSpec(Sig(e)).Ok? ==> WellFormed(r)
  {
    Variant([Text('g', Sig(e)), e])
  }

  // ---------------------------------------------------------------------------------------
  // Marshal

  /** The values Node's `write*` function for the type accepts without throwing. */
  predicate Writable(c: FixedCode, n: int)
  {
    match c
    case 'y' => 0 <= n < 0x100
    case 'n' => -0x8000 <= n < 0x8000
    case 'q' => 0 <= n < 0x1_0000
    case 'i' => 0 <= n < 0x1_0000
    case 'u' => 0 <= n < 0x1_0000_0000
    case 'b' => 0 <= n < 0x1_0000_0000
    case 'h' => 0 <= n < 0x1_0000_0000
    case 'x' => true
    case 't' => true
    case _ => false
  }

  /** The number of bytes the writer and the reader of a fixed type touch: INT32 uses the
      16-bit functions, INT64 and UINT64 none at all. */
  function Width(c: FixedCode): (r: nat)
    ensures r <= Size(c)
  {
    if c == 'i' then 2 else if c == 'x' || c == 't' then 0 else Size(c)
  }

  /** The unsigned bit pattern the writer stores: INT16 in two's complement. */
  function Pattern(c: FixedCode, n: int): nat
    requires Writable(c, n) && Width(c) > 0
  {
    if c == 'n' && n < 0 then n + 0x1_0000 else n
  }

  /** What `_write` puts at the aligned offset of a fixed type, `Size(c)` bytes in all: the
      `Width(c)` bytes of the bit pattern, then the bytes the writer leaves alone. */
  function FixedBytes(c: FixedCode, n: int, le: bool): (r: Result<seq<byte>>)
    ensures r.Ok? ==> |r.value| == Size(c)
  {
    if c == 'd' then Err("DOUBLE not modelled")
    else if !Writable(c, n) then Err("out of range")
    else if Width(c) == 0 then Ok(Zeros(Size(c)))
    else Ok(UIntBytes(Pattern(c, n), Width(c), le) + Zeros(Size(c) - Width(c)))
  }

  /** A writable value's bit pattern fits its width, and INT16's reads back as the value. */
  lemma PatternFits(c: FixedCode, n: int)
    requires Writable(c, n) && Width(c) > 0
    ensures Pattern(c, n) < Pow256(Width(c))
    ensures c == 'n' ==> ToSigned(Pattern(c, n), 2) == n
  {
    Pow256Values();
    if c == 'n' {
      assert Pattern(c, n) == ToUnsigned(n, 2);
      SignedRoundTrip(n, 2);
    } else if c == 'i' {
      assert Width(c) == 2;
    } else {
      assert Width(c) == Size(c);
    }
  }

  /** The bytes `marshal(buf, off, le)` leaves in a zero-filled buffer from `off` up to the
      returned offset: leading alignment padding, then the value. */
  function Marshalled(v: Value, off: nat, le: bool): (r: Result<seq<byte>>)
    decreases v, 2
  {
    match v
    case Int(c, n, big) => MarshalledInt(c, n, big, off, le)
    case Unset(c) => MarshalledUnset(c, off)
    case Text(c, s) => MarshalledText(c, s, off, le)
    case Array(esig, elems) => MarshalledArray(esig, elems, off, le)
    case Struct(_, _, elems) => MarshalledStruct(elems, off, le)
    case Variant(elems) => MarshalledAll(elems, off, le)
  }

  /** FIXED_TYPE `marshal`; a bigint cannot be written by the number writers. */
  function MarshalledInt(c: FixedCode, n: int, big: bool, off: nat, le: bool): (r: Result<seq<byte>>)
  {
    if big && c != 'x' && c != 't' then Err("cannot convert a BigInt value to a number")
    else
      var bs :- FixedBytes(c, n, le);
      Ok(Zeros(Round(off, Align(c)) - off) + bs)
  }

  /** `marshal` of a basic type without a value: the number writers store `NaN` as zero bytes;
      a string-like type reads the length of `undefined` and throws. */
  function MarshalledUnset(c: char, off: nat): (r: Result<seq<byte>>)
  {
    if IsFixed(c) && c != 'd' then Ok(Zeros(Round(off, Align(c)) - off) + Zeros(Size(c)))
    else Err("value undefined")
  }

  /** STRING_LIKE_TYPE `marshal`: the length (UINT32, or BYTE for SIGNATURE), the characters,
      and a NUL. */
  function MarshalledText(c: TextCode, s: string, off: nat, le: bool): (r: Result<seq<byte>>)
  {
    if c == 'g' && |s| >= 0x100 then Err("out of range")
    else if |s| >= 0x1_0000_0000 then Err("out of range")
    else Ok(Zeros(Round(off, Align(c)) - off) + UIntBytes(|s|, Align(c), le) + Bytes(s) + [0])
  }

  /** ARRAY `marshal`: the length word at a 4-aligned offset, the elements from the element
      type's alignment after it, and the word back-patched with the elements' byte count. */
  function MarshalledArray(esig: string, elems: seq<Value>, off: nat, le: bool): (r: Result<seq<byte>>)
    decreases elems, 1
  {
    if esig == [] || !IsCode(esig[0]) then Err("element type undefined")
    else
      var p := Round(off, 4);
      var start := Round(p + 4, Align(esig[0]));
      var body :- MarshalledAll(elems, start, le);
      if |body| >= 0x1_0000_0000 then Err("out of range")
      else Ok(Zeros(p - off) + UIntBytes(|body|, 4, le) + Zeros(start - p - 4) + body)
  }

  /** STRUCT and DICT_ENTRY `marshal`: the elements from an 8-aligned offset. */
  function MarshalledStruct(elems: seq<Value>, off: nat, le: bool): (r: Result<seq<byte>>)
    decreases elems, 1
  {
    var body :- MarshalledAll(elems, Round(off, 8), le);
    Ok(Zeros(Round(off, 8) - off) + body)
  }

  /** `elems.reduce((offset, el) => el.marshal(buf, offset, le), off)`. */
  function MarshalledAll(vs: seq<Value>, off: nat, le: bool): (r: Result<seq<byte>>)
    decreases vs, 0
  {
    if vs == [] then Ok([])
    else
      var e :- Marshalled(vs[0], off, le);
      var rest :- MarshalledAll(vs[1..], off + |e|, le);
      Ok(e + rest)
  }

  // ---------------------------------------------------------------------------------------
  // Unmarshal

  /** A decoded value and the offset `unmarshal` returns. */
  datatype Decoded = Decoded(v: Value, end: nat)
  datatype DecodedList = DecodedList(vs: seq<Value>, end: nat)

  /** The bytes left after `off`, the measure that bounds nested decoding. */
  function Remaining(buf: seq<byte>, off: nat): nat
  {
    if off <= |buf| then |buf| - off else 0
  }

  /** A fixed type's `unmarshal`: Node's `read*` throws past the end of the buffer; INT64 and
      UINT64 read nothing and leave the value undefined. */
  function UnmarshalledFixed(c: FixedCode, buf: seq<byte>, off: nat, le: bool): (r: Result<Decoded>)
    ensures r.Ok? ==> off < r.value.end
  {
    var p := Round(off, Align(c));
    if c == 'x' || c == 't' then Ok(Decoded(Unset(c), p + 8))
    else if c == 'd' then Err("DOUBLE not modelled")
    else if p + Width(c) > |buf| then Err("out of range")
    else
      var u := ReadUInt(buf, p, Width(c), le);
      Ok(Decoded(Int(c, if c == 'n' then ToSigned(u, 2) else u, false), p + Size(c)))
  }

  /** The reading half of a string-like type's `unmarshal`: the length, then the bytes (the
      slice stops at the end of the buffer); the terminating NUL is skipped unread. */
  function ReadText(c: TextCode, buf: seq<byte>, off: nat, le: bool): (r: Result<Decoded>)
    ensures r.Ok? ==> off < |buf| && off < r.value.end && r.value.v.Text? && r.value.v.tcode == c
  {
    var p := Round(off, Align(c));
    if p + Align(c) > |buf| then Err("out of range")
    else
      var len := ReadUInt(buf, p, Align(c), le);
      var start := p + Align(c);
      var stop := if start + len <= |buf| then start + len else |buf|;
      Ok(Decoded(Text(c, ReadChars(buf, start, stop)), start + len + 1))
  }

  /** A string-like type's `unmarshal`: SIGNATURE also explodes the text it read. */
  function UnmarshalledText(c: TextCode, buf: seq<byte>, off: nat, le: bool): (r: Result<Decoded>)
    ensures r.Ok? ==> off < |buf| && off < r.value.end && r.value.v.Text? && r.value.v.tcode == c
  {
    var d :- ReadText(c, buf, off, le);
    if c == 'g' && Signature.ExplodeSpec(d.v.s).Err? then Err(Signature.ExplodeSpec(d.v.s).msg)
    else Ok(d)
  }

  /** `new TYPE(sig).unmarshal(buf, off, le)`. */
  function Unmarshalled(sig: string, buf: seq<byte>, off: nat, le: bool): (r: Result<Decoded>)
    ensures r.Ok? ==> off < r.value.end
    decreases Remaining(buf, off), |sig|, 2, 0
  {
    if sig == [] || !IsCode(sig[0]) then Err("bad sig")
    else if IsFixed(sig[0]) then UnmarshalledFixed(sig[0], buf, off, le)
    else if IsStringLike(sig[0]) then UnmarshalledText(sig[0], buf, off, le)
    else if sig[0] == 'a' then UnmarshalledArray(sig, buf, off, le)
    else if sig[0] == 'v' then UnmarshalledVariant(sig, buf, off, le)
    else UnmarshalledStruct(sig, buf, off, le)
  }

  /** ARRAY `unmarshal`: the length word, then elements up to `elemStart + num`, which is the
      offset returned whatever the last element's end. */
  function UnmarshalledArray(sig: string, buf: seq<byte>, off: nat, le: bool): (r: Result<Decoded>)
    requires sig != [] && sig[0] == 'a'
    ensures r.Ok? ==> off < r.value.end
    decreases Remaining(buf, off), |sig|, 1, 0
  {
    var esig := sig[1..];
    var p := Round(off, 4);
    if p + 4 > |buf| then Err("out of range")
    else if esig == [] || !IsCode(esig[0]) then Err("element type undefined")
    else
      var num := ReadUInt(buf, p, 4, le);
      var start := Round(p + 4, Align(esig[0]));
      var elems :- UnmarshalledElems(sig, buf, start, start + num, le);
      Ok(Decoded(Array(esig, elems), start + num))
  }

  /** STRUCT and DICT_ENTRY `unmarshal`: the signature is checked and exploded by the
      constructor, then the fields follow from an 8-aligned offset. */
  function UnmarshalledStruct(sig: string, buf: seq<byte>, off: nat, le: bool): (r: Result<Decoded>)
    requires sig != [] && (sig[0] == '(' || sig[0] == '{')
    ensures r.Ok? ==> off < r.value.end
    decreases Remaining(buf, off), |sig|, 1, 0
  {
    var shell :- BySignature(sig);
    var p := Round(off, 8);
    var fields :- UnmarshalledFields(sig, shell.esigs, buf, p, le);
    Ok(Decoded(Struct(sig, shell.esigs, fields.vs), fields.end))
  }

  /** VARIANT `unmarshal`: a SIGNATURE, then a value of that signature. */
  function UnmarshalledVariant(sig: string, buf: seq<byte>, off: nat, le: bool): (r: Result<Decoded>)
    requires sig != [] && sig[0] == 'v'
    ensures r.Ok? ==> off < r.value.end
    decreases Remaining(buf, off), |sig|, 1, 0
  {
    if sig != "v" then Err("elems contains non-TYPE object")
    else
      var head :- UnmarshalledText('g', buf, off, le);
      var inner :- Unmarshalled(head.v.s, buf, head.end, le);
      Ok(Decoded(Variant([head.v, inner.v]), inner.end))
  }

  /** ARRAY's loop `while (offset < elemStart + num)`, one element per turn. */
  function UnmarshalledElems(sig: string, buf: seq<byte>, pos: nat, stop: nat, le: bool): (r: Result<seq<Value>>)
    requires sig != []
    decreases Remaining(buf, pos), |sig|, 0, if pos < stop then stop - pos else 0
  {
    if pos >= stop then Ok([])
    else
      var e :- Unmarshalled(sig[1..], buf, pos, le);
      var rest :- UnmarshalledElems(sig, buf, e.end, stop, le);
      Ok([e.v] + rest)
  }

  /** STRUCT's `esigs.forEach`, each element at the offset the previous one returned. */
  function UnmarshalledFields(sig: string, esigs: seq<string>, buf: seq<byte>, pos: nat, le: bool): (r: Result<DecodedList>)
    requires forall i :: 0 <= i < |esigs| ==> |esigs[i]| < |sig|
    ensures r.Ok? ==> |r.value.vs| == |esigs| && pos <= r.value.end && (esigs != [] ==> pos < r.value.end)
    decreases Remaining(buf, pos), |sig|, 0, |esigs|
  {
    if esigs == [] then Ok(DecodedList([], pos))
    else
      var e :- Unmarshalled(esigs[0], buf, pos, le);
      var rest :- UnmarshalledFields(sig, esigs[1..], buf, e.end, le);
      Ok(DecodedList([e.v] + rest.vs, rest.end))
  }

  // ---------------------------------------------------------------------------------------
  // Round trip

  /** The values that `unmarshal` can give back: every fixed value is one `marshal` writes and
      `unmarshal` reads (not INT64, UINT64 or DOUBLE), strings are ASCII, a SIGNATURE holds a
      valid signature, ARRAY elements carry the element signature, a STRUCT or DICT_ENTRY
      signature constructs it, and a VARIANT holds its inner value's signature. */
  predicate WellFormed(v: Value)
    decreases v, 1
  {
    match v
    case Int(c, _, _) => c != 'x' && c != 't' && c != 'd'
    case Unset(_) => false
    case Text(c, s) => IsAscii(s) && (c == 'g' ==> Signature.ExplodeSpec(s).Ok?)
    case Array(esig, elems) => esig != [] && IsCode(esig[0]) && WellFormedElems(elems, esig)
    case Struct(sig, esigs, elems) => WellFormedStruct(sig, esigs, elems)
    case Variant(elems) => WellFormedVariant(elems)
  }

  /** ARRAY elements: each carries the element signature and is well-formed. */
  predicate WellFormedElems(elems: seq<Value>, esig: string)
    decreases elems, 0
  {
    forall i :: 0 <= i < |elems| ==> Sig(elems[i]) == esig && WellFormed(elems[i])
  }

  /** STRUCT and DICT_ENTRY: the signature constructs the shell, and the fields carry the
      signatures it exploded into. */
  predicate WellFormedStruct(sig: string, esigs: seq<string>, elems: seq<Value>)
    decreases elems, 1
  {
    sig != [] && (sig[0] == '(' || sig[0] == '{') && BySignature(sig) == Ok(Struct(sig, esigs, [])) &&
    Sigs(elems) == esigs && WellFormedFields(elems)
  }

  /** STRUCT and DICT_ENTRY fields: each is well-formed. */
  predicate WellFormedFields(elems: seq<Value>)
    decreases elems, 0
  {
    forall i :: 0 <= i < |elems| ==> WellFormed(elems[i])
  }

  /** VARIANT: a SIGNATURE holding the signature of the value after it. */
  predicate WellFormedVariant(elems: seq<Value>)
    decreases elems, 0
  {
    |elems| == 2 && elems[0] == Text('g', Sig(elems[1])) && WellFormed(elems[0]) && WellFormed(elems[1])
  }

  /** The middle part of a three-part encoding sits right after the first. */
  lemma HoldsMiddle(buf: seq<byte>, off: nat, x: seq<byte>, y: seq<byte>, z: seq<byte>, p: nat)
    requires Holds(buf, off, x + y + z) && p == off + |x|
    ensures Holds(buf, p, y)
  {
    HoldsAppend(buf, off, x + y, z);
    HoldsAppend(buf, off, x, y);
  }

  /** The bytes `marshal` produces for a fixed value: padding, the bit pattern, and the bytes
      the writer leaves alone. */
  lemma IntEncoding(c: FixedCode, n: int, off: nat, le: bool)
    requires c != 'x' && c != 't' && c != 'd' && MarshalledInt(c, n, false, off, le).Ok?
    ensures Writable(c, n)
    ensures MarshalledInt(c, n, false, off, le).value ==
      Zeros(Round(off, Align(c)) - off) + UIntBytes(Pattern(c, n), Width(c), le) + Zeros(Size(c) - Width(c))
  {
  }

  /** `unmarshal` of a fixed type reads the value back from its bit pattern. */
  lemma IntDecoding(c: FixedCode, n: int, buf: seq<byte>, off: nat, le: bool)
    requires c != 'x' && c != 't' && c != 'd' && Writable(c, n)
    requires Holds(buf, Round(off, Align(c)), UIntBytes(Pattern(c, n), Width(c), le))
    ensures UnmarshalledFixed(c, buf, off, le) == Ok(Decoded(Int(c, n, false), Round(off, Align(c)) + Size(c)))
  {
    PatternFits(c, n);
    UIntRoundTrip(buf, Round(off, Align(c)), Pattern(c, n), Width(c), le);
  }

  /** The parts of a length-prefixed, NUL-terminated encoding sit one after another: the
      prefix at `p`, `a` bytes long, then the `n` bytes of the text. */
  lemma HoldsFramed(buf: seq<byte>, off: nat, z: seq<byte>, prefix: seq<byte>, text: seq<byte>, p: nat, a: nat, n: nat)
    requires Holds(buf, off, z + prefix + text + [0])
    requires p == off + |z| && a == |prefix| && n == |text|
    ensures p + a + n < |buf|
    ensures Holds(buf, p, prefix) && Holds(buf, p + a, text)
  {
    HoldsAppend(buf, off, z + prefix + text, [0]);
    HoldsBound(buf, off + |z + prefix + text|, [0]);
    HoldsAppend(buf, off, z + prefix, text);
    HoldsAppend(buf, off, z, prefix);
  }

  /** A fixed value is read back from where it was written. */
  lemma IntRoundTrip(c: FixedCode, n: int, buf: seq<byte>, off: nat, le: bool)
    requires c != 'x' && c != 't' && c != 'd' && MarshalledInt(c, n, false, off, le).Ok?
    requires Holds(buf, off, MarshalledInt(c, n, false, off, le).value)
    ensures UnmarshalledFixed(c, buf, off, le) == Ok(Decoded(Int(c, n, false), off + |MarshalledInt(c, n, false, off, le).value|))
  {
    var p := Round(off, Align(c));
    IntEncoding(c, n, off, le);
    HoldsMiddle(buf, off, Zeros(p - off), UIntBytes(Pattern(c, n), Width(c), le), Zeros(Size(c) - Width(c)), p);
    IntDecoding(c, n, buf, off, le);
  }

  /** The bytes `marshal` produces for a string-like value: padding, the length, the
      characters and a NUL. */
  lemma TextEncoding(c: TextCode, s: string, off: nat, le: bool)
    requires MarshalledText(c, s, off, le).Ok?
    ensures |s| < Pow256(Align(c))
    ensures MarshalledText(c, s, off, le).value ==
      Zeros(Round(off, Align(c)) - off) + UIntBytes(|s|, Align(c), le) + Bytes(s) + [0]
  {
    Pow256Values();
  }

  /** `ReadText` in terms of the length word and the characters it finds. */
  lemma ReadTextAt(c: TextCode, buf: seq<byte>, off: nat, le: bool, p: nat, a: nat, len: nat, t: string)
    requires p == Round(off, Align(c)) && a == Align(c) && p + a + len <= |buf|
    requires ReadUInt(buf, p, a, le) == len && ReadChars(buf, p + a, p + a + len) == t
    ensures ReadText(c, buf, off, le) == Ok(Decoded(Text(c, t), p + a + len + 1))
  {
  }

  /** The length word and the characters `marshal` wrote are read back as they were. */
  lemma TextDecoding(s: string, buf: seq<byte>, p: nat, a: nat, le: bool)
    requires IsAscii(s) && |s| < Pow256(a)
    requires Holds(buf, p, UIntBytes(|s|, a, le)) && Holds(buf, p + a, Bytes(s))
    ensures p + a + |s| <= |buf|
    ensures ReadUInt(buf, p, a, le) == |s| && ReadChars(buf, p + a, p + a + |s|) == s
  {
    UIntRoundTrip(buf, p, |s|, a, le);
    CharsRoundTrip(buf, p + a, s);
  }

  /** Where `marshal` puts the length word and the characters of a string-like value. */
  lemma TextLayout(c: TextCode, s: string, buf: seq<byte>, off: nat, le: bool, p: nat, a: nat)
    requires p == Round(off, Align(c)) && a == Align(c)
    requires MarshalledText(c, s, off, le).Ok? && Holds(buf, off, MarshalledText(c, s, off, le).value)
    ensures |s| < Pow256(a) && p + a + |s| < |buf|
    ensures off + |MarshalledText(c, s, off, le).value| == p + a + |s| + 1
    ensures Holds(buf, p, UIntBytes(|s|, a, le)) && Holds(buf, p + a, Bytes(s))
  {
    TextEncoding(c, s, off, le);
    HoldsFramed(buf, off, Zeros(p - off), UIntBytes(|s|, a, le), Bytes(s), p, a, |s|);
  }

  /** SIGNATURE's check passes on a valid signature. */
  lemma UnmarshalledTextOfRead(c: TextCode, s: string, buf: seq<byte>, off: nat, le: bool, end: nat)
    requires ReadText(c, buf, off, le) == Ok(Decoded(Text(c, s), end))
    requires c == 'g' ==> Signature.ExplodeSpec(s).Ok?
    ensures UnmarshalledText(c, buf, off, le) == Ok(Decoded(Text(c, s), end))
  {
  }

  /** A string-like value is read back from where it was written. */
  lemma TextRoundTrip(c: TextCode, s: string, buf: seq<byte>, off: nat, le: bool)
    requires IsAscii(s) && (c == 'g' ==> Signature.ExplodeSpec(s).Ok?)
    requires MarshalledText(c, s, off, le).Ok? && Holds(buf, off, MarshalledText(c, s, off, le).value)
    ensures UnmarshalledText(c, buf, off, le) == Ok(Decoded(Text(c, s), off + |MarshalledText(c, s, off, le).value|))
  {
    TextReadBack(c, s, buf, off, le);
    UnmarshalledTextOfRead(c, s, buf, off, le, off + |MarshalledText(c, s, off, le).value|);
  }

  /** The length word and the characters of a string-like value are read back. */
  lemma TextReadBack(c: TextCode, s: string, buf: seq<byte>, off: nat, le: bool)
    requires IsAscii(s)
    requires MarshalledText(c, s, off, le).Ok? && Holds(buf, off, MarshalledText(c, s, off, le).value)
    ensures ReadText(c, buf, off, le) == Ok(Decoded(Text(c, s), off + |MarshalledText(c, s, off, le).value|))
  {
    var p, a := Round(off, Align(c)), Align(c);
    TextLayout(c, s, buf, off, le, p, a);
    TextDecoding(s, buf, p, a, le);
    ReadTextAt(c, buf, off, le, p, a, |s|, s);
  }

  /** `elems.reduce(...)` of a non-empty list: the first element's bytes, then the rest's. */
  lemma MarshalledAllCons(vs: seq<Value>, pos: nat, le: bool)
    requires vs != [] && MarshalledAll(vs, pos, le).Ok?
    ensures Marshalled(vs[0], pos, le).Ok?
    ensures MarshalledAll(vs[1..], pos + |Marshalled(vs[0], pos, le).value|, le).Ok?
    ensures MarshalledAll(vs, pos, le).value ==
      Marshalled(vs[0], pos, le).value + MarshalledAll(vs[1..], pos + |Marshalled(vs[0], pos, le).value|, le).value
  {
  }

  /** The bytes `marshal` produces for an ARRAY: padding, the length word, padding up to the
      element alignment, and the elements. */
  lemma ArrayEncoding(esig: string, elems: seq<Value>, off: nat, le: bool) returns (start: nat, body: seq<byte>)
    requires MarshalledArray(esig, elems, off, le).Ok?
    ensures esig != [] && IsCode(esig[0]) && start == Round(Round(off, 4) + 4, Align(esig[0]))
    ensures MarshalledAll(elems, start, le) == Ok(body) && |body| < Pow256(4)
    ensures MarshalledArray(esig, elems, off, le) ==
      Ok(Zeros(Round(off, 4) - off) + UIntBytes(|body|, 4, le) + Zeros(start - Round(off, 4) - 4) + body)
  {
    Pow256Values();
    start := Round(Round(off, 4) + 4, Align(esig[0]));
    body := MarshalledAll(elems, start, le).value;
  }

  /** The length word of an ARRAY at `p`, its elements at `start`. */
  lemma HoldsArray(buf: seq<byte>, off: nat, z1: seq<byte>, word: seq<byte>, z2: seq<byte>, body: seq<byte>, p: nat, start: nat)
    requires Holds(buf, off, z1 + word + z2 + body)
    requires p == off + |z1| && |word| == 4 && start == p + 4 + |z2|
    ensures Holds(buf, p, word)
    ensures Holds(buf, start, body)
    ensures off + |z1 + word + z2 + body| == start + |body|
  {
    HoldsAppend(buf, off, z1 + word + z2, body);
    HoldsMiddle(buf, off, z1, word, z2, p);
  }

  /** ARRAY `unmarshal` in terms of the length word and the elements it finds. */
  lemma ArrayReadAt(sig: string, esig: string, buf: seq<byte>, off: nat, le: bool, num: nat, elems: seq<Value>, end: nat)
    requires |sig| >= 2 && sig[0] == 'a' && IsCode(sig[1]) && esig == sig[1..]
    requires Round(off, 4) + 4 <= |buf| && ReadUInt(buf, Round(off, 4), 4, le) == num
    requires end == Round(Round(off, 4) + 4, Align(sig[1])) + num
    requires UnmarshalledElems(sig, buf, Round(Round(off, 4) + 4, Align(sig[1])), end, le) == Ok(elems)
    ensures UnmarshalledArray(sig, buf, off, le) == Ok(Decoded(Array(esig, elems), end))
  {
    assert sig[1..][0] == sig[1];
  }

  /** One more ARRAY element, read at `pos` before the end of the array. */
  lemma ElemsStep(sig: string, buf: seq<byte>, pos: nat, stop: nat, le: bool, vs: seq<Value>, m: nat)
    requires sig != [] && vs != [] && pos < stop
    requires Unmarshalled(sig[1..], buf, pos, le) == Ok(Decoded(vs[0], m))
    requires UnmarshalledElems(sig, buf, m, stop, le) == Ok(vs[1..])
    ensures UnmarshalledElems(sig, buf, pos, stop, le) == Ok(vs)
  {
    assert [vs[0]] + vs[1..] == vs;
  }

  /** One more STRUCT field. */
  lemma FieldsStep(sig: string, esigs: seq<string>, vs: seq<Value>, buf: seq<byte>, pos: nat, le: bool, m: nat, end: nat)
    requires esigs != [] && |vs| == |esigs| && forall i :: 0 <= i < |esigs| ==> |esigs[i]| < |sig|
    requires Unmarshalled(esigs[0], buf, pos, le) == Ok(Decoded(vs[0], m))
    requires UnmarshalledFields(sig, esigs[1..], buf, m, le) == Ok(DecodedList(vs[1..], end))
    ensures UnmarshalledFields(sig, esigs, buf, pos, le) == Ok(DecodedList(vs, end))
  {
    assert [vs[0]] + vs[1..] == vs;
  }

  /** The bytes `marshal` produces for a STRUCT or DICT_ENTRY. */
  lemma StructEncoding(elems: seq<Value>, off: nat, le: bool)
    requires MarshalledStruct(elems, off, le).Ok?
    ensures MarshalledAll(elems, Round(off, 8), le).Ok?
    ensures MarshalledStruct(elems, off, le).value == Zeros(Round(off, 8) - off) + MarshalledAll(elems, Round(off, 8), le).value
  {
  }

  /** What follows padding sits right after it. */
  lemma HoldsAfter(buf: seq<byte>, off: nat, z: seq<byte>, body: seq<byte>, p: nat)
    requires Holds(buf, off, z + body) && p == off + |z|
    ensures Holds(buf, p, body) && off + |z + body| == p + |body|
  {
    HoldsAppend(buf, off, z, body);
  }

  /** STRUCT and DICT_ENTRY `unmarshal` in terms of the fields it finds. */
  lemma StructReadAt(sig: string, esigs: seq<string>, buf: seq<byte>, off: nat, le: bool, p: nat, vs: seq<Value>, end: nat)
    requires sig != [] && (sig[0] == '(' || sig[0] == '{')
    requires BySignature(sig) == Ok(Struct(sig, esigs, [])) && p == Round(off, 8)
    requires UnmarshalledFields(sig, esigs, buf, p, le) == Ok(DecodedList(vs, end))
    ensures UnmarshalledStruct(sig, buf, off, le) == Ok(Decoded(Struct(sig, esigs, vs), end))
  {
  }

  /** VARIANT `unmarshal` in terms of the signature and the value it finds. */
  lemma VariantReadAt(buf: seq<byte>, off: nat, le: bool, elems: seq<Value>, m: nat, e: nat)
    requires |elems| == 2 && elems[0] == Text('g', Sig(elems[1]))
    requires Unmarshalled("g", buf, off, le) == Ok(Decoded(elems[0], m))
    requires Unmarshalled(Sig(elems[1]), buf, m, le) == Ok(Decoded(elems[1], e))
    ensures Unmarshalled("v", buf, off, le) == Ok(Decoded(Variant(elems), e))
  {
    assert Unmarshalled("g", buf, off, le) == UnmarshalledText('g', buf, off, le);
    assert Unmarshalled("v", buf, off, le) == UnmarshalledVariant("v", buf, off, le);
    assert elems == [elems[0], elems[1]];
  }

  /** What `marshal` writes, `unmarshal` of the value's signature reads back, and it returns the
      offset `marshal` returned. */
  lemma {:induction false} RoundTrip(v: Value, buf: seq<byte>, off: nat, le: bool)
    requires WellFormed(v) && Marshalled(v, off, le).Ok?
    requires Holds(buf, off, Marshalled(v, off, le).value)
    ensures Unmarshalled(Sig(v), buf, off, le) == Ok(Decoded(v, off + |Marshalled(v, off, le).value|))
    decreases v, 5
  {
    match v
    case Int(_, _, _) => RoundTripFixed(v, buf, off, le);
    case Text(_, _) => RoundTripText(v, buf, off, le);
    case Array(_, _) => RoundTripArray(v, buf, off, le);
    case Struct(_, _, _) => RoundTripStruct(v, buf, off, le);
    case Variant(_) => RoundTripVariant(v, buf, off, le);
  }

  /** `RoundTrip` for a fixed value. */
  lemma RoundTripFixed(v: Value, buf: seq<byte>, off: nat, le: bool)
    requires v.Int? && WellFormed(v) && Marshalled(v, off, le).Ok?
    requires Holds(buf, off, Marshalled(v, off, le).value)
    ensures Unmarshalled(Sig(v), buf, off, le) == Ok(Decoded(v, off + |Marshalled(v, off, le).value|))
  {
    IntRoundTrip(v.code, v.n, buf, off, le);
    assert Unmarshalled(Sig(v), buf, off, le) == UnmarshalledFixed(v.code, buf, off, le);
  }

  /** `RoundTrip` for a string-like value. */
  lemma RoundTripText(v: Value, buf: seq<byte>, off: nat, le: bool)
    requires v.Text? && WellFormed(v) && Marshalled(v, off, le).Ok?
    requires Holds(buf, off, Marshalled(v, off, le).value)
    ensures Unmarshalled(Sig(v), buf, off, le) == Ok(Decoded(v, off + |Marshalled(v, off, le).value|))
  {
    TextRoundTrip(v.tcode, v.s, buf, off, le);
    assert Unmarshalled(Sig(v), buf, off, le) == UnmarshalledText(v.tcode, buf, off, le);
  }

  /** Where `marshal` put an ARRAY's length word and its elements, and what the word holds. */
  lemma ArrayLayout(esig: string, elems: seq<Value>, buf: seq<byte>, off: nat, le: bool) returns (start: nat)
    requires MarshalledArray(esig, elems, off, le).Ok? && Holds(buf, off, MarshalledArray(esig, elems, off, le).value)
    ensures esig != [] && IsCode(esig[0]) && start == Round(Round(off, 4) + 4, Align(esig[0]))
    ensures MarshalledAll(elems, start, le).Ok? && Holds(buf, start, MarshalledAll(elems, start, le).value)
    ensures Round(off, 4) + 4 <= |buf| && ReadUInt(buf, Round(off, 4), 4, le) == |MarshalledAll(elems, start, le).value|
    ensures off + |MarshalledArray(esig, elems, off, le).value| == start + |MarshalledAll(elems, start, le).value|
  {
    var body;
    start, body := ArrayEncoding(esig, elems, off, le);
    var p := Round(off, 4);
    HoldsWordAndBody(buf, off, Zeros(p - off), Zeros(start - p - 4), body, p, start, le);
  }

  /** A length word that counts the body after it, both held in the buffer. */
  lemma HoldsWordAndBody(buf: seq<byte>, off: nat, z1: seq<byte>, z2: seq<byte>, body: seq<byte>, p: nat, start: nat, le: bool)
    requires |body| < Pow256(4) && Holds(buf, off, z1 + UIntBytes(|body|, 4, le) + z2 + body)
    requires p == off + |z1| && start == p + 4 + |z2|
    ensures Holds(buf, start, body)
    ensures off + |z1 + UIntBytes(|body|, 4, le) + z2 + body| == start + |body|
    ensures p + 4 <= |buf| && ReadUInt(buf, p, 4, le) == |body|
  {
    var word := UIntBytes(|body|, 4, le);
    HoldsArray(buf, off, z1, word, z2, body, p, start);
    UIntRoundTrip(buf, p, |body|, 4, le);
  }

  /** `RoundTrip` for an ARRAY. */
  lemma {:induction false} RoundTripArray(v: Value, buf: seq<byte>, off: nat, le: bool)
    requires v.Array? && WellFormed(v) && Marshalled(v, off, le).Ok?
    requires Holds(buf, off, Marshalled(v, off, le).value)
    ensures Unmarshalled(Sig(v), buf, off, le) == Ok(Decoded(v, off + |Marshalled(v, off, le).value|))
    decreases v, 4
  {
    var sig := Sig(v);
    ArrayReadBack(sig, v.esig, v.elems, buf, off, le, off + |Marshalled(v, off, le).value|);
    assert Unmarshalled(sig, buf, off, le) == UnmarshalledArray(sig, buf, off, le);
  }

  /** The length word and the elements of an ARRAY are read back. */
  lemma {:induction false} ArrayReadBack(sig: string, esig: string, elems: seq<Value>, buf: seq<byte>, off: nat, le: bool, end: nat)
    requires sig == "a" + esig && WellFormedElems(elems, esig)
    requires MarshalledArray(esig, elems, off, le).Ok? && Holds(buf, off, MarshalledArray(esig, elems, off, le).value)
    requires end == off + |MarshalledArray(esig, elems, off, le).value|
    ensures UnmarshalledArray(sig, buf, off, le) == Ok(Decoded(Array(esig, elems), end))
    decreases elems, 3
  {
    var start := ArrayLayout(esig, elems, buf, off, le);
    assert sig[0] == 'a' && sig[1..] == esig && sig[1] == esig[0];
    var num := |MarshalledAll(elems, start, le).value|;
    assert end == start + num;
    RoundTripElems(sig, elems, buf, start, le, end);
    ArrayReadAt(sig, esig, buf, off, le, num, elems, end);
  }

  /** Where `marshal` put the fields of a STRUCT or DICT_ENTRY. */
  lemma StructLayout(elems: seq<Value>, buf: seq<byte>, off: nat, le: bool, p: nat)
    requires p == Round(off, 8)
    requires MarshalledStruct(elems, off, le).Ok? && Holds(buf, off, MarshalledStruct(elems, off, le).value)
    ensures MarshalledAll(elems, p, le).Ok? && Holds(buf, p, MarshalledAll(elems, p, le).value)
    ensures off + |MarshalledStruct(elems, off, le).value| == p + |MarshalledAll(elems, p, le).value|
  {
    StructEncoding(elems, off, le);
    HoldsAfter(buf, off, Zeros(p - off), MarshalledAll(elems, p, le).value, p);
  }

  /** `RoundTrip` for a STRUCT or DICT_ENTRY. */
  lemma {:induction false} RoundTripStruct(v: Value, buf: seq<byte>, off: nat, le: bool)
    requires v.Struct? && WellFormed(v) && Marshalled(v, off, le).Ok?
    requires Holds(buf, off, Marshalled(v, off, le).value)
    ensures Unmarshalled(Sig(v), buf, off, le) == Ok(Decoded(v, off + |Marshalled(v, off, le).value|))
    decreases v, 4
  {
    StructReadBack(v.sig, v.esigs, v.elems, buf, off, le, off + |Marshalled(v, off, le).value|);
    StructDispatch(v.sig, buf, off, le);
  }

  /** `unmarshal` of a signature opening with `(` or `{` is STRUCT `unmarshal`. */
  lemma StructDispatch(sig: string, buf: seq<byte>, off: nat, le: bool)
    requires sig != [] && (sig[0] == '(' || sig[0] == '{')
    ensures Unmarshalled(sig, buf, off, le) == UnmarshalledStruct(sig, buf, off, le)
  {
    assert IsCode(sig[0]) && !IsFixed(sig[0]) && !IsStringLike(sig[0]);
  }

  /** The fields of a STRUCT or DICT_ENTRY are read back after the padding. */
  lemma {:induction false} StructReadBack(sig: string, esigs: seq<string>, elems: seq<Value>, buf: seq<byte>, off: nat, le: bool, end: nat)
    requires WellFormedStruct(sig, esigs, elems)
    requires MarshalledStruct(elems, off, le).Ok? && Holds(buf, off, MarshalledStruct(elems, off, le).value)
    requires end == off + |MarshalledStruct(elems, off, le).value|
    ensures sig != [] && (sig[0] == '(' || sig[0] == '{')
    ensures UnmarshalledStruct(sig, buf, off, le) == Ok(Decoded(Struct(sig, esigs, elems), end))
    decreases elems, 3
  {
    StructShape(sig, esigs, elems);
    var p := Round(off, 8);
    StructLayout(elems, buf, off, le, p);
    assert end == p + |MarshalledAll(elems, p, le).value|;
    RoundTripFields(sig, esigs, elems, buf, p, le, end);
    StructReadAt(sig, esigs, buf, off, le, p, elems, end);
  }

  /** What a well-formed STRUCT or DICT_ENTRY's signature and fields satisfy. */
  lemma StructShape(sig: string, esigs: seq<string>, elems: seq<Value>)
    requires WellFormedStruct(sig, esigs, elems)
    ensures sig != [] && (sig[0] == '(' || sig[0] == '{') && BySignature(sig) == Ok(Struct(sig, esigs, []))
    ensures esigs == Sigs(elems) && WellFormedFields(elems)
    ensures forall i :: 0 <= i < |esigs| ==> |esigs[i]| < |sig|
  {
  }

  /** `RoundTrip` for a VARIANT: the SIGNATURE, then the value it names. */
  lemma {:induction false} RoundTripVariant(v: Value, buf: seq<byte>, off: nat, le: bool)
    requires v.Variant? && WellFormed(v) && Marshalled(v, off, le).Ok?
    requires Holds(buf, off, Marshalled(v, off, le).value)
    ensures Unmarshalled(Sig(v), buf, off, le) == Ok(Decoded(v, off + |Marshalled(v, off, le).value|))
    decreases v, 4
  {
    assert Sig(v) == "v" && v == Variant(v.elems);
    assert Marshalled(v, off, le) == MarshalledAll(v.elems, off, le);
    assert WellFormedVariant(v.elems);
    VariantReadBack(v.elems, buf, off, le, off + |Marshalled(v, off, le).value|);
  }

  /** The SIGNATURE of a VARIANT is read back, then the value it names, up to `end`. */
  lemma {:induction false} VariantReadBack(elems: seq<Value>, buf: seq<byte>, off: nat, le: bool, end: nat)
    requires WellFormedVariant(elems) && MarshalledAll(elems, off, le).Ok?
    requires Holds(buf, off, MarshalledAll(elems, off, le).value)
    requires end == off + |MarshalledAll(elems, off, le).value|
    ensures Unmarshalled("v", buf, off, le) == Ok(Decoded(Variant(elems), end))
    decreases elems, 3
  {
    var t := Sig(elems[1]);
    var m1 := RoundTripHead("g", elems, buf, off, le);
    var m2 := RoundTripHead(t, elems[1..], buf, m1, le);
    assert elems[1..][0] == elems[1];
    assert elems[1..][1..] == [];
    assert MarshalledAll(elems[1..][1..], m2, le) == Ok([]);
    assert end == m2;
    VariantReadAt(buf, off, le, elems, m1, end);
  }

  /** STRUCT and DICT_ENTRY fields are read back one after another. */
  lemma {:induction false} RoundTripFields(sig: string, esigs: seq<string>, vs: seq<Value>, buf: seq<byte>, pos: nat, le: bool, end: nat)
    requires esigs == Sigs(vs) && (forall i :: 0 <= i < |esigs| ==> |esigs[i]| < |sig|) && WellFormedFields(vs)
    requires MarshalledAll(vs, pos, le).Ok? && Holds(buf, pos, MarshalledAll(vs, pos, le).value)
    requires end == pos + |MarshalledAll(vs, pos, le).value|
    ensures UnmarshalledFields(sig, esigs, buf, pos, le) == Ok(DecodedList(vs, end))
    decreases vs, 2
  {
    if vs == [] {
      assert end == pos && esigs == [];
    } else {
      var m := FieldsHead(sig, esigs, vs, buf, pos, le, end);
      assert WellFormedFields(vs[1..]);
      assert esigs[1..] == Sigs(vs[1..]);
      RoundTripFields(sig, esigs[1..], vs[1..], buf, m, le, end);
    }
  }

  /** The first field is read back, and reading the rest from `m` on completes the fields. */
  lemma {:induction false} FieldsHead(sig: string, esigs: seq<string>, vs: seq<Value>, buf: seq<byte>, pos: nat, le: bool, end: nat) returns (m: nat)
    requires esigs == Sigs(vs) && vs != [] && (forall i :: 0 <= i < |esigs| ==> |esigs[i]| < |sig|) && WellFormedFields(vs)
    requires MarshalledAll(vs, pos, le).Ok? && Holds(buf, pos, MarshalledAll(vs, pos, le).value)
    requires end == pos + |MarshalledAll(vs, pos, le).value|
    ensures MarshalledAll(vs[1..], m, le).Ok? && Holds(buf, m, MarshalledAll(vs[1..], m, le).value)
    ensures m + |MarshalledAll(vs[1..], m, le).value| == end
    ensures UnmarshalledFields(sig, esigs[1..], buf, m, le) == Ok(DecodedList(vs[1..], end)) ==>
      UnmarshalledFields(sig, esigs, buf, pos, le) == Ok(DecodedList(vs, end))
    decreases vs, 1
  {
    m := RoundTripHead(esigs[0], vs, buf, pos, le);
    if UnmarshalledFields(sig, esigs[1..], buf, m, le) == Ok(DecodedList(vs[1..], end)) {
      FieldsStep(sig, esigs, vs, buf, pos, le, m, end);
    }
  }

  /** ARRAY elements are read back until the length word is used up. */
  lemma {:induction false} RoundTripElems(sig: string, vs: seq<Value>, buf: seq<byte>, pos: nat, le: bool, stop: nat)
    requires sig != []
    requires WellFormedElems(vs, sig[1..])
    requires MarshalledAll(vs, pos, le).Ok? && Holds(buf, pos, MarshalledAll(vs, pos, le).value)
    requires stop == pos + |MarshalledAll(vs, pos, le).value|
    ensures UnmarshalledElems(sig, buf, pos, stop, le) == Ok(vs)
    decreases vs, 2
  {
    if vs == [] {
      assert stop == pos;
    } else {
      var m := ElemsHead(sig, vs, buf, pos, le, stop);
      assert WellFormedElems(vs[1..], sig[1..]);
      RoundTripElems(sig, vs[1..], buf, m, le, stop);
    }
  }

  /** The first element is read back, and reading the rest from `m` on completes the array. */
  lemma {:induction false} ElemsHead(sig: string, vs: seq<Value>, buf: seq<byte>, pos: nat, le: bool, stop: nat) returns (m: nat)
    requires sig != [] && vs != [] && WellFormedElems(vs, sig[1..])
    requires MarshalledAll(vs, pos, le).Ok? && Holds(buf, pos, MarshalledAll(vs, pos, le).value)
    requires stop == pos + |MarshalledAll(vs, pos, le).value|
    ensures MarshalledAll(vs[1..], m, le).Ok? && Holds(buf, m, MarshalledAll(vs[1..], m, le).value)
    ensures m + |MarshalledAll(vs[1..], m, le).value| == stop
    ensures UnmarshalledElems(sig, buf, m, stop, le) == Ok(vs[1..]) ==> UnmarshalledElems(sig, buf, pos, stop, le) == Ok(vs)
    decreases vs, 1
  {
    m := RoundTripHead(sig[1..], vs, buf, pos, le);
    if UnmarshalledElems(sig, buf, m, stop, le) == Ok(vs[1..]) {
      ElemsStep(sig, buf, pos, stop, le, vs, m);
    }
  }

  /** The first of a list of values is read back where it was written, and the rest of the
      encoding follows it at `m`. */
  lemma {:induction false} RoundTripHead(esig: string, vs: seq<Value>, buf: seq<byte>, pos: nat, le: bool) returns (m: nat)
    requires vs != [] && WellFormed(vs[0]) && Sig(vs[0]) == esig
    requires MarshalledAll(vs, pos, le).Ok? && Holds(buf, pos, MarshalledAll(vs, pos, le).value)
    ensures Unmarshalled(esig, buf, pos, le) == Ok(Decoded(vs[0], m))
    ensures MarshalledAll(vs[1..], m, le).Ok? && Holds(buf, m, MarshalledAll(vs[1..], m, le).value)
    ensures m + |MarshalledAll(vs[1..], m, le).value| == pos + |MarshalledAll(vs, pos, le).value|
    decreases vs, 0
  {
    MarshalledAllCons(vs, pos, le);
    var e := Marshalled(vs[0], pos, le).value;
    var rest := MarshalledAll(vs[1..], pos + |e|, le).value;
    HoldsAppend(buf, pos, e, rest);
    m := pos + |e|;
    assert MarshalledAll(vs[1..], m, le) == Ok(rest);
    assert Holds(buf, pos, e) && Holds(buf, m, rest);
    assert m + |rest| == pos + |MarshalledAll(vs, pos, le).value|;
    RoundTrip(vs[0], buf, pos, le);
  }

}
