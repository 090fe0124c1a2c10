/** `marshal` of `dbus-types.js` as methods that write into a caller's buffer in place. The
    buffer is zero-filled from the starting offset on, as the `Buffer.alloc` buffers of the
    message framer are: padding bytes are never written, and ARRAY writes its elements first
    and back-patches its length word afterwards. Each method is proved to leave exactly the
    bytes of `DBusTypes.Marshalled` when they fit in the buffer, and to return the offset
    after them. Node's number writers throw when their bytes would pass the end of the
    buffer; `buf.write` at the very end writes nothing and does not throw, so a NUL that
    falls there is dropped; and the 64-bit writers write nothing, so they never throw. */
module Marshalling {
  import opened Wrappers
  import opened Octets
  import opened DBusTypes

  /** The bytes from `k` on are zero. */
  predicate ZeroFrom(s: seq<byte>, k: nat)
  {
    forall i :: k <= i < |s| ==> s[i] == 0
  }

  /** `s` with the bytes from `p` replaced by `x`. */
  function Splice(s: seq<byte>, p: nat, x: seq<byte>): (r: seq<byte>)
    requires p + |x| <= |s|
    ensures |r| == |s|
  {
    s[..p] + x + s[p + |x|..]
  }

  /** Each byte of a splice comes from `x` inside the written range and from `s` outside. */
  lemma SpliceAt(s: seq<byte>, p: nat, x: seq<byte>)
    requires p + |x| <= |s|
    ensures forall i :: 0 <= i < |s| ==>
      Splice(s, p, x)[i] == (if p <= i < p + |x| then x[i - p] else s[i])
  {
  }

  /** The contract of every marshalling method: a success reports the offset after the
      encoding, and an encoding that fits is written over the zero-filled region. An encoding
      that fails never succeeds. */
  predicate Wrote(enc: Result<seq<byte>>, r: Result<nat>, before: seq<byte>, after: seq<byte>, off: nat)
  {
    && (r.Ok? ==> enc.Ok? && r.value == off + |enc.value|)
    && (enc.Ok? && off + |enc.value| <= |before| ==>
          r.Ok? && |after| == |before| && after == Splice(before, off, enc.value))
  }

  lemma ZerosAreZero(w: nat)
    ensures forall i :: 0 <= i < w ==> Zeros(w)[i] == 0
  {
    if w > 0 {
      ZerosAreZero(w - 1);
      assert forall i :: 1 <= i < w ==> Zeros(w)[i] == Zeros(w - 1)[i - 1];
    }
  }

  /** Writing `x` at `p` over zeros is writing the padding before it and zeros after it. */
  lemma Padded(s: seq<byte>, off: nat, p: nat, x: seq<byte>, z: nat)
    requires ZeroFrom(s, off) && off <= p && p + |x| + z <= |s|
    ensures Splice(s, p, x) == Splice(s, off, Zeros(p - off) + (x + Zeros(z)))
  {
    ZerosAreZero(p - off);
    ZerosAreZero(z);
    SpliceAt(s, p, x);
    SpliceAt(s, off, Zeros(p - off) + (x + Zeros(z)));
    var a := Splice(s, p, x);
    var b := Splice(s, off, Zeros(p - off) + (x + Zeros(z)));
    forall i | 0 <= i < |s|
      ensures a[i] == b[i]
    {
      if off <= i < p {
        assert b[i] == Zeros(p - off)[i - off];
      } else if p <= i < p + |x| {
        assert b[i] == (Zeros(p - off) + (x + Zeros(z)))[i - off];
      } else if p + |x| <= i < p + |x| + z {
        assert b[i] == Zeros(z)[i - p - |x|];
      }
    }
  }

  /** Two writes side by side are one write of both. */
  lemma Adjacent(s: seq<byte>, p: nat, x: seq<byte>, y: seq<byte>)
    requires p + |x| + |y| <= |s|
    ensures Splice(Splice(s, p, x), p + |x|, y) == Splice(s, p, x + y)
  {
    SpliceAt(s, p, x);
    SpliceAt(Splice(s, p, x), p + |x|, y);
    SpliceAt(s, p, x + y);
    var a := Splice(Splice(s, p, x), p + |x|, y);
    var b := Splice(s, p, x + y);
    forall i | 0 <= i < |s|
      ensures a[i] == b[i]
    {
    }
  }

  /** A write leaves zero what lies after it. */
  lemma ZeroAfter(s: seq<byte>, off: nat, x: seq<byte>)
    requires ZeroFrom(s, off) && off + |x| <= |s|
    ensures ZeroFrom(Splice(s, off, x), off + |x|)
  {
    SpliceAt(s, off, x);
  }

  /** `buf.writeUIntLE`/`writeUIntBE`: the `w` bytes of `n` at `p`, nothing else touched. */
  method WriteUInt(buf: array<byte>, p: nat, n: nat, w: nat, le: bool)
    requires p + w <= buf.Length
    modifies buf
    ensures buf[..] == Splice(old(buf[..]), p, UIntBytes(n, w, le))
  {
    var bytes := UIntBytes(n, w, le);
    var k := 0;
    while k < w
      invariant 0 <= k <= w
      invariant forall i :: 0 <= i < buf.Length ==>
        buf[i] == (if p <= i < p + k then bytes[i - p] else old(buf[i]))
    {
      buf[p + k] := bytes[k];
      k := k + 1;
    }
    SpliceAt(old(buf[..]), p, bytes);
  }

  /** `buf.write(s, p)` for one byte per character. */
  method WriteChars(buf: array<byte>, p: nat, s: string)
    requires p + |s| <= buf.Length
    modifies buf
    ensures buf[..] == Splice(old(buf[..]), p, Bytes(s))
  {
    var bytes := Bytes(s);
    var k := 0;
    while k < |s|
      invariant 0 <= k <= |s|
      invariant forall i :: 0 <= i < buf.Length ==>
        buf[i] == (if p <= i < p + k then bytes[i - p] else old(buf[i]))
    {
      buf[p + k] := bytes[k];
      k := k + 1;
    }
    SpliceAt(old(buf[..]), p, bytes);
  }

  /** FIXED_TYPE `marshal`: `_write` at the aligned offset, then `offset + _size`. The value
      is checked before the offset, so a value error is reported as such. The empty `_write`
      of INT64 and UINT64 touches nothing, so any offset, even past the buffer, succeeds. */
  method MarshalInt(c: FixedCode, n: int, big: bool, buf: array<byte>, off: nat, le: bool) returns (r: Result<nat>)
    requires ZeroFrom(buf[..], off)
    modifies buf
    ensures Wrote(MarshalledInt(c, n, big, off, le), r, old(buf[..]), buf[..], off)
    ensures MarshalledInt(c, n, big, off, le).Err? ==> r == Err(MarshalledInt(c, n, big, off, le).msg)
    ensures MarshalledInt(c, n, big, off, le).Ok? && Width(c) == 0 ==>
              r == Ok(Round(off, Align(c)) + Size(c)) && buf[..] == old(buf[..])
  {
    if big && c != 'x' && c != 't' {
      return Err("cannot convert a BigInt value to a number");
    }
    if c == 'd' {
      return Err("DOUBLE not modelled");
    }
    if !Writable(c, n) {
      return Err("out of range");
    }
    var p := Round(off, Align(c));
    IntShape(c, n, big, off, le);
    if Width(c) == 0 {
      if p + Size(c) <= buf.Length {
        Padded(buf[..], off, p, UIntBytes(0, 0, le), Size(c));
        SpliceAt(buf[..], p, UIntBytes(0, 0, le));
      }
      return Ok(p + Size(c));
    }
    if p + Width(c) > buf.Length {
      return Err("out of range");
    }
    ghost var b0 := buf[..];
    ghost var x := UIntBytes(Pattern(c, n), Width(c), le);
    WriteUInt(buf, p, Pattern(c, n), Width(c), le);
    if p + Size(c) <= buf.Length {
      Padded(b0, off, p, x, Size(c) - Width(c));
    }
    r := Ok(p + Size(c));
  }

  /** `marshal` of a basic type without a value: a number writer stores `NaN` as zero; a
      string-like type throws reading the length of `undefined`. */
  method MarshalUnset(c: char, buf: array<byte>, off: nat) returns (r: Result<nat>)
    requires ZeroFrom(buf[..], off)
    modifies buf
    ensures Wrote(MarshalledUnset(c, off), r, old(buf[..]), buf[..], off)
    ensures MarshalledUnset(c, off).Err? ==> r == Err(MarshalledUnset(c, off).msg)
  {
    if !(IsFixed(c) && c != 'd') {
      return Err("value undefined");
    }
    var p := Round(off, Align(c));
    if p + Width(c) > buf.Length {
      return Err("out of range");
    }
    ghost var b0 := buf[..];
    WriteUInt(buf, p, 0, Width(c), true);
    ZeroSplice(b0, p, Width(c));
    if p + Size(c) <= buf.Length {
      UnsetLayout(b0, off, p, Size(c));
    }
    r := Ok(p + Size(c));
  }

  lemma ZeroBytes(w: nat)
    ensures LE(0, w) == Zeros(w)
  {
    if w > 0 {
      ZeroBytes(w - 1);
    }
  }

  /** Writing zeros over zeros changes nothing. */
  lemma ZeroSplice(s: seq<byte>, p: nat, w: nat)
    requires ZeroFrom(s, p) && p + w <= |s|
    ensures Splice(s, p, UIntBytes(0, w, true)) == s
  {
    ZeroBytes(w);
    ZerosAreZero(w);
    SpliceAt(s, p, Zeros(w));
  }

  /** A zero-filled region already holds the zeros of an unset value and its padding. */
  lemma UnsetLayout(s: seq<byte>, off: nat, p: nat, size: nat)
    requires ZeroFrom(s, off) && off <= p && p + size <= |s|
    ensures s == Splice(s, off, Zeros(p - off) + Zeros(size))
  {
    ZerosAreZero(p - off);
    ZerosAreZero(size);
    SpliceAt(s, off, Zeros(p - off) + Zeros(size));
    var b := Splice(s, off, Zeros(p - off) + Zeros(size));
    forall i | 0 <= i < |s|
      ensures s[i] == b[i]
    {
      if off <= i < p {
        assert b[i] == Zeros(p - off)[i - off];
      } else if p <= i < p + size {
        assert b[i] == Zeros(size)[i - p];
      }
    }
  }

  /** The encoding of a writable fixed value: the padding, its bit pattern, then zeros up
      to its size. */
  lemma IntShape(c: FixedCode, n: int, big: bool, off: nat, le: bool)
    requires !(big && c != 'x' && c != 't') && c != 'd' && Writable(c, n)
    ensures MarshalledInt(c, n, big, off, le) ==
      Ok(Zeros(Round(off, Align(c)) - off) +
         (UIntBytes(if Width(c) > 0 then Pattern(c, n) else 0, Width(c), le) + Zeros(Size(c) - Width(c))))
  {
    if Width(c) == 0 {
      assert UIntBytes(0, 0, le) + Zeros(Size(c)) == Zeros(Size(c));
    }
  }

  /** The three writes of a string-like value, with the padding before them. */
  lemma TextLayout(b0: seq<byte>, b1: seq<byte>, off: nat, p: nat, l: seq<byte>, x: seq<byte>)
    requires ZeroFrom(b0, off) && off <= p && p + |l| + |x| + 1 <= |b0|
    requires b1 == Splice(Splice(Splice(b0, p, l), p + |l|, x), p + |l| + |x|, [0])
    ensures b1 == Splice(b0, off, Zeros(p - off) + l + x + [0])
  {
    Adjacent(b0, p, l, x);
    Adjacent(b0, p, l + x, [0]);
    Padded(b0, off, p, l + x + [0], 0);
    assert Zeros(p - off) + (l + x + [0] + Zeros(0)) == Zeros(p - off) + l + x + [0];
  }

  /** The length word and the characters written one after another, with the padding
      before them, when the NUL has no room. */
  lemma TextCut(b0: seq<byte>, b1: seq<byte>, off: nat, p: nat, l: seq<byte>, x: seq<byte>)
    requires ZeroFrom(b0, off) && off <= p && p + |l| + |x| <= |b0|
    requires b1 == Splice(Splice(b0, p, l), p + |l|, x)
    ensures b1 == Splice(b0, off, Zeros(p - off) + l + x)
  {
    Adjacent(b0, p, l, x);
    Padded(b0, off, p, l + x, 0);
    assert Zeros(p - off) + (l + x + Zeros(0)) == Zeros(p - off) + l + x;
  }

  /** The writes of `MarshalText`, the NUL left out at the end of the buffer, are the
      encoding `enc`, or all of it but the NUL. */
  lemma TextWrote(b0: seq<byte>, b1: seq<byte>, off: nat, p: nat, l: seq<byte>, x: seq<byte>, enc: seq<byte>)
    requires ZeroFrom(b0, off) && off <= p && p + |l| + |x| <= |b0|
    requires enc == Zeros(p - off) + l + x + [0]
    requires var b := Splice(Splice(b0, p, l), p + |l|, x);
             b1 == if p + |l| + |x| < |b0| then Splice(b, p + |l| + |x|, [0]) else b
    ensures Wrote(Ok(enc), Ok(p + |l| + |x| + 1), b0, b1, off)
    ensures off + |enc| == |b0| + 1 ==> b1 == Splice(b0, off, enc[..|b0| - off])
  {
    if p + |l| + |x| < |b0| {
      TextLayout(b0, b1, off, p, l, x);
    } else {
      TextCut(b0, b1, off, p, l, x);
      assert enc[..|enc| - 1] == Zeros(p - off) + l + x;
    }
  }

  /** `_write`, `buf.write(this.value, offset)` and `buf.write('\0', offset)`: the length
      word, the characters, and the NUL unless it falls at the end of the buffer. */
  method WriteText(buf: array<byte>, p: nat, a: nat, s: string, le: bool)
    requires p + a + |s| <= buf.Length
    modifies buf
    ensures var b := Splice(Splice(old(buf[..]), p, UIntBytes(|s|, a, le)), p + a, Bytes(s));
            buf[..] == if p + a + |s| < buf.Length then Splice(b, p + a + |s|, [0]) else b
  {
    WriteUInt(buf, p, |s|, a, le);
    WriteChars(buf, p + a, s);
    if p + a + |s| < buf.Length {
      ghost var b := buf[..];
      buf[p + a + |s|] := 0;
      SpliceOne(b, p + a + |s|, 0);
    }
  }

  /** Writing one byte is a splice of one byte. */
  lemma SpliceOne(s: seq<byte>, k: nat, x: byte)
    requires k < |s|
    ensures Splice(s, k, [x]) == s[k := x]
  {
    SpliceAt(s, k, [x]);
  }

  /** STRING_LIKE_TYPE `marshal`: the length word, the characters, the NUL. A NUL that falls
      exactly at the end of the buffer is not written, and the offset after it is returned. */
  method MarshalText(c: TextCode, s: string, buf: array<byte>, off: nat, le: bool) returns (r: Result<nat>)
    requires ZeroFrom(buf[..], off)
    modifies buf
    ensures Wrote(MarshalledText(c, s, off, le), r, old(buf[..]), buf[..], off)
    ensures MarshalledText(c, s, off, le).Err? ==> r == Err(MarshalledText(c, s, off, le).msg)
    ensures MarshalledText(c, s, off, le).Ok? && off + |MarshalledText(c, s, off, le).value| == buf.Length + 1 ==>
              r == Ok(buf.Length + 1) &&
              buf[..] == Splice(old(buf[..]), off, MarshalledText(c, s, off, le).value[..buf.Length - off])
  {
    if c == 'g' && |s| >= 0x100 {
      return Err("out of range");
    }
    if |s| >= 0x1_0000_0000 {
      return Err("out of range");
    }
    var p := Round(off, Align(c));
    var a := Align(c);
    ghost var l := UIntBytes(|s|, a, le);
    ghost var enc := Zeros(p - off) + l + Bytes(s) + [0];
    assert MarshalledText(c, s, off, le) == Ok(enc);
    assert |enc| == p - off + a + |s| + 1;
    if p + a + |s| > buf.Length {
      return Err("out of range");
    }
    ghost var b0 := buf[..];
    WriteText(buf, p, a, s, le);
    TextWrote(b0, buf[..], off, p, l, Bytes(s), enc);
    r := Ok(p + a + |s| + 1);
  }

  /** `r` with `a` in front of its bytes. */
  function Prefixed(a: seq<byte>, r: Result<seq<byte>>): Result<seq<byte>>
  {
    if r.Ok? then Ok(a + r.value) else r
  }

  lemma PrefixedTwice(a: seq<byte>, b: seq<byte>, r: Result<seq<byte>>)
    ensures Prefixed(a, Prefixed(b, r)) == Prefixed(a + b, r)
  {
    if r.Ok? {
      assert a + (b + r.value) == a + b + r.value;
    }
  }

  /** The length word back-patched before elements already written, over zeros. */
  lemma ArrayLayout(b0: seq<byte>, off: nat, p: nat, start: nat, l: seq<byte>, body: seq<byte>)
    requires ZeroFrom(b0, off) && off <= p && p + |l| <= start && start + |body| <= |b0|
    ensures Splice(Splice(b0, start, body), p, l) ==
            Splice(b0, off, Zeros(p - off) + l + Zeros(start - p - |l|) + body)
  {
    ZerosAreZero(p - off);
    ZerosAreZero(start - p - |l|);
    var e := Zeros(p - off) + l + Zeros(start - p - |l|) + body;
    SpliceAt(b0, start, body);
    SpliceAt(Splice(b0, start, body), p, l);
    SpliceAt(b0, off, e);
    var a := Splice(Splice(b0, start, body), p, l);
    var b := Splice(b0, off, e);
    forall i | 0 <= i < |b0|
      ensures a[i] == b[i]
    {
      if off <= i < p {
        assert b[i] == Zeros(p - off)[i - off];
      } else if p <= i < p + |l| {
        assert b[i] == l[i - p];
      } else if p + |l| <= i < start {
        assert b[i] == Zeros(start - p - |l|)[i - p - |l|];
      } else if start <= i < start + |body| {
        assert b[i] == body[i - start];
      }
    }
  }

  /** `marshal`: dispatches on the kind of value. */
  method Marshal(v: Value, buf: array<byte>, off: nat, le: bool) returns (r: Result<nat>)
    requires ZeroFrom(buf[..], off)
    modifies buf
    ensures Wrote(Marshalled(v, off, le), r, old(buf[..]), buf[..], off)
    decreases v, 2
  {
    match v
    case Int(c, n, big) => r := MarshalInt(c, n, big, buf, off, le);
    case Unset(c) => r := MarshalUnset(c, buf, off);
    case Text(c, s) => r := MarshalText(c, s, buf, off, le);
    case Array(esig, elems) => r := MarshalArray(esig, elems, buf, off, le);
    case Struct(_, _, elems) => r := MarshalStruct(elems, buf, off, le);
    case Variant(elems) => r := MarshalAll(elems, buf, off, le);
  }

  /** ARRAY `marshal`: the elements from the element type's alignment after a 4-aligned
      length word, then the word written with the elements' byte count. */
  method MarshalArray(esig: string, elems: seq<Value>, buf: array<byte>, off: nat, le: bool) returns (r: Result<nat>)
    requires ZeroFrom(buf[..], off)
    modifies buf
    ensures Wrote(MarshalledArray(esig, elems, off, le), r, old(buf[..]), buf[..], off)
    decreases elems, 1
  {
    if esig == [] || !IsCode(esig[0]) {
      return Err("element type undefined");
    }
    ghost var b0 := buf[..];
    var p := Round(off, 4);
    var start := Round(p + 4, Align(esig[0]));
    var elemsEnd := MarshalAll(elems, buf, start, le);
    if elemsEnd.Err? {
      ArrayFails(esig, elems, off, le, b0, buf[..], elemsEnd);
      return Err(elemsEnd.msg);
    }
    var num := elemsEnd.value - start;
    if num >= 0x1_0000_0000 || p + 4 > buf.Length {
      ArrayFails(esig, elems, off, le, b0, buf[..], elemsEnd);
      return Err("out of range");
    }
    ghost var b1 := buf[..];
    WriteUInt(buf, p, num, 4, le);
    ArrayWrote(esig, elems, off, le, b0, b1, buf[..], elemsEnd.value);
    r := elemsEnd;
  }

  /** An ARRAY whose elements fail, whose body is too long for its length word, or whose
      length word lies past the end of the buffer does not fit. */
  lemma ArrayFails(esig: string, elems: seq<Value>, off: nat, le: bool, b0: seq<byte>, b1: seq<byte>, inner: Result<nat>)
    requires esig != [] && IsCode(esig[0])
    requires Wrote(MarshalledAll(elems, Round(Round(off, 4) + 4, Align(esig[0])), le), inner, b0, b1,
                   Round(Round(off, 4) + 4, Align(esig[0])))
    requires inner.Err? || inner.value - Round(Round(off, 4) + 4, Align(esig[0])) >= 0x1_0000_0000 ||
             Round(off, 4) + 4 > |b0|
    ensures !(MarshalledArray(esig, elems, off, le).Ok? && off + |MarshalledArray(esig, elems, off, le).value| <= |b0|)
  {
  }

  /** The elements written, then the length word: the ARRAY's encoding. */
  lemma ArrayWrote(esig: string, elems: seq<Value>, off: nat, le: bool, b0: seq<byte>, b1: seq<byte>, b2: seq<byte>, end: nat)
    requires esig != [] && IsCode(esig[0]) && ZeroFrom(b0, off)
    requires Wrote(MarshalledAll(elems, Round(Round(off, 4) + 4, Align(esig[0])), le), Ok(end), b0, b1,
                   Round(Round(off, 4) + 4, Align(esig[0])))
    requires end - Round(Round(off, 4) + 4, Align(esig[0])) < 0x1_0000_0000 && Round(off, 4) + 4 <= |b1|
    requires b2 == Splice(b1, Round(off, 4), UIntBytes(end - Round(Round(off, 4) + 4, Align(esig[0])), 4, le))
    ensures Wrote(MarshalledArray(esig, elems, off, le), Ok(end), b0, b2, off)
  {
    var p := Round(off, 4);
    var start := Round(p + 4, Align(esig[0]));
    var body := MarshalledAll(elems, start, le).value;
    var enc := Zeros(p - off) + UIntBytes(|body|, 4, le) + Zeros(start - p - 4) + body;
    assert MarshalledArray(esig, elems, off, le) == Ok(enc);
    if off + |enc| <= |b0| {
      ArrayLayout(b0, off, p, start, UIntBytes(|body|, 4, le), body);
    }
  }

  /** STRUCT and DICT_ENTRY `marshal`: the elements from an 8-aligned offset. */
  method MarshalStruct(elems: seq<Value>, buf: array<byte>, off: nat, le: bool) returns (r: Result<nat>)
    requires ZeroFrom(buf[..], off)
    modifies buf
    ensures Wrote(MarshalledStruct(elems, off, le), r, old(buf[..]), buf[..], off)
    decreases elems, 1
  {
    ghost var b0 := buf[..];
    var p := Round(off, 8);
    r := MarshalAll(elems, buf, p, le);
    ghost var body := MarshalledAll(elems, p, le);
    if body.Ok? && p + |body.value| <= buf.Length {
      Padded(b0, off, p, body.value, 0);
      assert body.value + Zeros(0) == body.value;
    }
  }

  /** One element further into the encoding of a list. */
  lemma AllStep(vs: seq<Value>, i: nat, off: nat, pos: nat, acc: seq<byte>, le: bool)
    requires i < |vs| && pos == off + |acc|
    requires MarshalledAll(vs, off, le) == Prefixed(acc, MarshalledAll(vs[i..], pos, le))
    requires Marshalled(vs[i], pos, le).Ok?
    ensures MarshalledAll(vs, off, le) ==
      Prefixed(acc + Marshalled(vs[i], pos, le).value,
               MarshalledAll(vs[i + 1..], pos + |Marshalled(vs[i], pos, le).value|, le))
  {
    var e := Marshalled(vs[i], pos, le).value;
    assert vs[i..][0] == vs[i] && vs[i..][1..] == vs[i + 1..];
    assert MarshalledAll(vs[i..], pos, le) == Prefixed(e, MarshalledAll(vs[i + 1..], pos + |e|, le));
    PrefixedTwice(acc, e, MarshalledAll(vs[i + 1..], pos + |e|, le));
  }

  /** One element further into the buffer. */
  lemma BufferStep(b0: seq<byte>, prev: seq<byte>, after: seq<byte>, off: nat, acc: seq<byte>, e: seq<byte>)
    requires ZeroFrom(b0, off) && off + |acc| + |e| <= |b0|
    requires prev == Splice(b0, off, acc) && after == Splice(prev, off + |acc|, e)
    ensures after == Splice(b0, off, acc + e) && ZeroFrom(after, off + |acc| + |e|)
  {
    Adjacent(b0, off, acc, e);
    ZeroAfter(b0, off, acc + e);
  }

  /** What the loop of `MarshalAll` keeps: the elements before `i` are encoded as `acc`,
      written over the zero-filled region when they fit, and zeros follow. */
  predicate AllInv(vs: seq<Value>, i: nat, off: nat, pos: nat, acc: seq<byte>, le: bool, b0: seq<byte>, cur: seq<byte>)
  {
    && i <= |vs| && pos == off + |acc| && |cur| == |b0|
    && MarshalledAll(vs, off, le) == Prefixed(acc, MarshalledAll(vs[i..], pos, le))
    && (pos <= |b0| ==> cur == Splice(b0, off, acc))
    && ZeroFrom(cur, pos)
  }

  /** An element that does not succeed where it fits leaves the list without a fitting
      encoding. */
  lemma AllFails(vs: seq<Value>, i: nat, off: nat, pos: nat, acc: seq<byte>, le: bool,
                 b0: seq<byte>, cur: seq<byte>, after: seq<byte>, next: Result<nat>)
    requires AllInv(vs, i, off, pos, acc, le, b0, cur) && i < |vs| && next.Err?
    requires Wrote(Marshalled(vs[i], pos, le), next, cur, after, pos)
    ensures !(MarshalledAll(vs, off, le).Ok? && off + |MarshalledAll(vs, off, le).value| <= |b0|)
  {
    assert vs[i..][0] == vs[i];
  }

  /** An element that succeeds extends the encoding by its bytes. */
  lemma AllAdvance(vs: seq<Value>, i: nat, off: nat, pos: nat, acc: seq<byte>, le: bool,
                   b0: seq<byte>, cur: seq<byte>, after: seq<byte>, next: Result<nat>)
    requires AllInv(vs, i, off, pos, acc, le, b0, cur) && i < |vs| && next.Ok? && |after| == |b0|
    requires ZeroFrom(b0, off)
    requires Wrote(Marshalled(vs[i], pos, le), next, cur, after, pos)
    ensures Marshalled(vs[i], pos, le).Ok?
    ensures AllInv(vs, i + 1, off, next.value, acc + Marshalled(vs[i], pos, le).value, le, b0, after)
  {
    var e := Marshalled(vs[i], pos, le).value;
    AllStep(vs, i, off, pos, acc, le);
    if next.value <= |b0| {
      BufferStep(b0, cur, after, off, acc, e);
    }
  }

  /** With every element encoded, the encoding is what has been accumulated. */
  lemma AllDone(vs: seq<Value>, off: nat, pos: nat, acc: seq<byte>, le: bool, b0: seq<byte>, cur: seq<byte>)
    requires AllInv(vs, |vs|, off, pos, acc, le, b0, cur)
    ensures Wrote(MarshalledAll(vs, off, le), Ok(pos), b0, cur, off)
  {
    assert vs[|vs|..] == [];
    assert acc + [] == acc;
  }

  /** `elems.reduce((offset, el) => el.marshal(buf, offset, le), off)`. */
  method MarshalAll(vs: seq<Value>, buf: array<byte>, off: nat, le: bool) returns (r: Result<nat>)
    requires ZeroFrom(buf[..], off)
    modifies buf
    ensures Wrote(MarshalledAll(vs, off, le), r, old(buf[..]), buf[..], off)
    decreases vs, 0
  {
    ghost var b0 := buf[..];
    ghost var acc: seq<byte> := [];
    var pos := off;
    var i := 0;
    StartAll(vs, off, le, b0);
    while i < |vs|
      invariant AllInv(vs, i, off, pos, acc, le, b0, buf[..])
    {
      ghost var cur := buf[..];
      var next := Marshal(vs[i], buf, pos, le);
      if next.Err? {
        AllFails(vs, i, off, pos, acc, le, b0, cur, buf[..], next);
        return Err(next.msg);
      }
      AllAdvance(vs, i, off, pos, acc, le, b0, cur, buf[..], next);
      acc := acc + Marshalled(vs[i], pos, le).value;
      pos := next.value;
      i := i + 1;
    }
    AllDone(vs, off, pos, acc, le, b0, buf[..]);
    r := Ok(pos);
  }

  lemma StartAll(vs: seq<Value>, off: nat, le: bool, b0: seq<byte>)
    requires ZeroFrom(b0, off)
    ensures AllInv(vs, 0, off, off, [], le, b0, b0)
  {
    assert vs[0..] == vs;
    if MarshalledAll(vs, off, le).Ok? {
      assert [] + MarshalledAll(vs, off, le).value == MarshalledAll(vs, off, le).value;
    }
    if off <= |b0| {
      SpliceAt(b0, off, []);
      assert Splice(b0, off, []) == b0;
    }
  }
}
