/** Byte-level helpers of the wire format: alignment, unsigned integers in either byte order,
    two's complement, and the one-byte-per-character view of strings. */
module Octets {

  /** A byte of the buffer. */
  newtype byte = b: int | 0 <= b < 256

  /** The alignments the wire format uses. */
  predicate IsAlign(a: nat)
  {
    a == 1 || a == 2 || a == 4 || a == 8
  }

  /** `Math.ceil(offset / modulo) * modulo`: the padding up to the next multiple of `align`,
      written per alignment so that every divisor is a constant. */
  function Round(offset: nat, align: nat): (r: nat)
    requires IsAlign(align)
    ensures offset <= r < offset + align
  {
    if align == 1 then offset
    else if align == 2 then offset + offset % 2
    else if align == 4 then offset + (4 - offset % 4) % 4
    else offset + (8 - offset % 8) % 8
  }

  /** `Round` is the source's `Math.ceil(offset / modulo) * modulo` for every alignment. */
  lemma RoundIsCeil(offset: nat)
    ensures Round(offset, 1) == offset
    ensures Round(offset, 2) == ((offset + 1) / 2) * 2
    ensures Round(offset, 4) == ((offset + 3) / 4) * 4
    ensures Round(offset, 8) == ((offset + 7) / 8) * 8
  {
    Ceil2(offset);
    Ceil4(offset);
    Ceil8(offset);
  }

  lemma Ceil2(offset: nat)
    ensures Round(offset, 2) == ((offset + 1) / 2) * 2
  {
    var q, r := offset / 2, offset % 2;
    assert offset == 2 * q + r;
    assert (offset + 1) / 2 == q + r;
  }

  lemma Ceil4(offset: nat)
    ensures Round(offset, 4) == ((offset + 3) / 4) * 4
  {
    var q, r := offset / 4, offset % 4;
    assert offset == 4 * q + r;
    assert (offset + 3) / 4 == if r == 0 then q else q + 1;
  }

  lemma Ceil8(offset: nat)
    ensures Round(offset, 8) == ((offset + 7) / 8) * 8
  {
    var q, r := offset / 8, offset % 8;
    assert offset == 8 * q + r;
    assert (offset + 7) / 8 == if r == 0 then q else q + 1;
  }

  /** `Round` is a multiple of the alignment, and no multiple of it lies between `offset`
      and `Round`. */
  lemma RoundIsLeastMultiple(offset: nat, align: nat, m: nat)
    requires IsAlign(align)
    ensures Round(offset, align) % align == 0
    ensures m % align == 0 && offset <= m ==> Round(offset, align) <= m
  {
    if align == 2 {
      LeastMultiple2(offset, m);
    } else if align == 4 {
      LeastMultiple4(offset, m);
    } else if align == 8 {
      LeastMultiple8(offset, m);
    }
  }

  lemma LeastMultiple2(offset: nat, m: nat)
    ensures Round(offset, 2) % 2 == 0 && (m % 2 == 0 && offset <= m ==> Round(offset, 2) <= m)
  {
  }

  lemma LeastMultiple4(offset: nat, m: nat)
    ensures Round(offset, 4) % 4 == 0 && (m % 4 == 0 && offset <= m ==> Round(offset, 4) <= m)
  {
  }

  lemma LeastMultiple8(offset: nat, m: nat)
    ensures Round(offset, 8) % 8 == 0 && (m % 8 == 0 && offset <= m ==> Round(offset, 8) <= m)
  {
  }

  /** 256 to the power `w`: one more than the largest unsigned value on `w` bytes. */
  function Pow256(w: nat): (r: nat)
    ensures r > 0
  {
    if w == 0 then 1 else 256 * Pow256(w - 1)
  }

  /** The powers the wire format's widths use. */
  lemma Pow256Values()
    ensures Pow256(0) == 1 && Pow256(1) == 0x100 && Pow256(2) == 0x1_0000
    ensures Pow256(4) == 0x1_0000_0000 && Pow256(8) == 0x1_0000_0000_0000_0000
  {
    assert Pow256(3) == 0x100_0000;
    assert Pow256(6) == 0x1_0000_0000_0000;
  }

  /** The low `w` bytes of `n`, least significant first (`writeUIntLE`). */
  function LE(n: nat, w: nat): (r: seq<byte>)
    ensures |r| == w
  {
    if w == 0 then [] else [(n % 256) as byte] + LE(n / 256, w - 1)
  }

  /** The low `w` bytes of `n`, most significant first (`writeUIntBE`). */
  function BE(n: nat, w: nat): (r: seq<byte>)
    ensures |r| == w
  {
    if w == 0 then [] else BE(n / 256, w - 1) + [(n % 256) as byte]
  }

  /** `n` written on `w` bytes in the chosen byte order. */
  function UIntBytes(n: nat, w: nat, le: bool): (r: seq<byte>)
    ensures |r| == w
  {
    if le then LE(n, w) else BE(n, w)
  }

  /** `buf.readUIntLE(p, w)`. */
  function ReadLE(buf: seq<byte>, p: nat, w: nat): (r: nat)
    requires p + w <= |buf|
    ensures r < Pow256(w)
    decreases w
  {
    if w == 0 then 0 else buf[p] as nat + 256 * ReadLE(buf, p + 1, w - 1)
  }

  /** `buf.readUIntBE(p, w)`. */
  function ReadBE(buf: seq<byte>, p: nat, w: nat): (r: nat)
    requires p + w <= |buf|
    ensures r < Pow256(w)
  {
    if w == 0 then 0 else 256 * ReadBE(buf, p, w - 1) + buf[p + w - 1] as nat
  }

  /** The unsigned value of the `w` bytes at `p`, in the chosen byte order. */
  function ReadUInt(buf: seq<byte>, p: nat, w: nat, le: bool): nat
    requires p + w <= |buf|
  {
    if le then ReadLE(buf, p, w) else ReadBE(buf, p, w)
  }

  /** The bytes of `buf` from `off` on begin with `enc`. */
  predicate Holds(buf: seq<byte>, off: nat, enc: seq<byte>)
    decreases |enc|
  {
    if enc == [] then off <= |buf|
    else off < |buf| && buf[off] == enc[0] && Holds(buf, off + 1, enc[1..])
  }

  /** `Holds` is the slice equality it is meant to be. */
  lemma {:induction false} HoldsIsSlice(buf: seq<byte>, off: nat, enc: seq<byte>)
    ensures Holds(buf, off, enc) <==> off + |enc| <= |buf| && buf[off..off + |enc|] == enc
    decreases |enc|
  {
    if enc != [] && off < |buf| {
      HoldsIsSlice(buf, off + 1, enc[1..]);
      if off + |enc| <= |buf| {
        assert buf[off..off + |enc|] == [buf[off]] + buf[off + 1..off + |enc|];
        assert enc == [enc[0]] + enc[1..];
      }
    }
  }

  /** The encoding of `a + b` holds at `off` exactly when `a` holds there and `b` right after it. */
  lemma {:induction false} HoldsAppend(buf: seq<byte>, off: nat, a: seq<byte>, b: seq<byte>)
    ensures Holds(buf, off, a + b) <==> Holds(buf, off, a) && Holds(buf, off + |a|, b)
    decreases |a|
  {
    if a == [] {
      assert a + b == b;
      if Holds(buf, off, b) {
        HoldsBound(buf, off, b);
      }
    } else {
      assert (a + b)[0] == a[0];
      assert (a + b)[1..] == a[1..] + b;
      HoldsAppend(buf, off + 1, a[1..], b);
    }
  }

  lemma {:induction false} HoldsBound(buf: seq<byte>, off: nat, enc: seq<byte>)
    requires Holds(buf, off, enc)
    ensures off + |enc| <= |buf|
    decreases |enc|
  {
    if enc != [] {
      HoldsBound(buf, off + 1, enc[1..]);
    }
  }

  lemma {:induction false} LERoundTrip(buf: seq<byte>, p: nat, n: nat, w: nat)
    requires n < Pow256(w) && Holds(buf, p, LE(n, w))
    ensures p + w <= |buf| && ReadLE(buf, p, w) == n
    decreases w
  {
    HoldsBound(buf, p, LE(n, w));
    if w > 0 {
      assert LE(n, w)[1..] == LE(n / 256, w - 1);
      LERoundTrip(buf, p + 1, n / 256, w - 1);
    }
  }

  lemma {:induction false} BERoundTrip(buf: seq<byte>, p: nat, n: nat, w: nat)
    requires n < Pow256(w) && Holds(buf, p, BE(n, w))
    ensures p + w <= |buf| && ReadBE(buf, p, w) == n
    decreases w
  {
    HoldsBound(buf, p, BE(n, w));
    if w > 0 {
      HoldsAppend(buf, p, BE(n / 256, w - 1), [(n % 256) as byte]);
      BERoundTrip(buf, p, n / 256, w - 1);
    }
  }

  /** A read depends only on the bytes it covers. */
  lemma {:induction false} ReadUIntLocal(a: seq<byte>, b: seq<byte>, p: nat, w: nat, le: bool)
    requires p + w <= |a| && p + w <= |b| && forall i :: p <= i < p + w ==> a[i] == b[i]
    ensures ReadUInt(a, p, w, le) == ReadUInt(b, p, w, le)
    decreases w
  {
    if w > 0 {
      if le {
        ReadUIntLocal(a, b, p + 1, w - 1, le);
      } else {
        ReadUIntLocal(a, b, p, w - 1, le);
      }
    }
  }

  /** Reading back what was written gives the value, in both byte orders. */
  lemma UIntRoundTrip(buf: seq<byte>, p: nat, n: nat, w: nat, le: bool)
    requires n < Pow256(w) && Holds(buf, p, UIntBytes(n, w, le))
    ensures p + w <= |buf| && ReadUInt(buf, p, w, le) == n
  {
    if le {
      LERoundTrip(buf, p, n, w);
    } else {
      BERoundTrip(buf, p, n, w);
    }
  }

  /** The unsigned bit pattern of a signed value on `w` bytes (two's complement). */
  function ToUnsigned(n: int, w: nat): int
  {
    if n < 0 then n + Pow256(w) else n
  }

  /** The signed value of an unsigned bit pattern on `w` bytes. */
  function ToSigned(u: nat, w: nat): int
  {
    if 2 * u >= Pow256(w) then u - Pow256(w) else u
  }

  lemma SignedRoundTrip(n: int, w: nat)
    requires 0 <= 2 * n + Pow256(w) && 2 * n < Pow256(w)
    ensures 0 <= ToUnsigned(n, w) < Pow256(w)
    ensures ToSigned(ToUnsigned(n, w), w) == n
  {
  }

  /** `w` zero bytes: padding, and the bytes of a freshly allocated buffer. */
  function Zeros(w: nat): (r: seq<byte>)
    ensures |r| == w
  {
    if w == 0 then [] else [0] + Zeros(w - 1)
  }

  /** The byte written for a character (strings are one byte per character here). */
  function ByteOf(c: char): byte
  {
    (c as int % 256) as byte
  }

  /** The character read back from a byte. */
  function CharOf(b: byte): char
  {
    (b as int) as char
  }

  /** `buf.write(s)` for text of one byte per character. */
  function Bytes(s: string): (r: seq<byte>)
    ensures |r| == |s|
  {
    if s == [] then [] else [ByteOf(s[0])] + Bytes(s[1..])
  }

  /** `buf.slice(start, stop).toString()`, one character per byte. */
  function ReadChars(buf: seq<byte>, start: nat, stop: nat): (r: string)
    requires start <= stop <= |buf|
    ensures |r| == stop - start
    decreases stop - start
  {
    if start == stop then [] else [CharOf(buf[start])] + ReadChars(buf, start + 1, stop)
  }

  /** ASCII text: one byte per character, which is what `buf.write` produces for it. */
  predicate IsAscii(s: string)
  {
    forall i :: 0 <= i < |s| ==> s[i] as int < 128
  }

  /** ASCII text written at `p` reads back as itself. */
  lemma {:induction false} CharsRoundTrip(buf: seq<byte>, p: nat, s: string)
    requires IsAscii(s) && Holds(buf, p, Bytes(s))
    ensures p + |s| <= |buf| && ReadChars(buf, p, p + |s|) == s
    decreases |s|
  {
    HoldsBound(buf, p, Bytes(s));
    if s != [] {
      assert IsAscii(s[1..]) by {
        forall i | 0 <= i < |s| - 1 ensures s[1..][i] as int < 128 {
          assert s[1..][i] == s[i + 1];
        }
      }
      assert Bytes(s)[1..] == Bytes(s[1..]);
      CharsRoundTrip(buf, p + 1, s[1..]);
      assert s == [s[0]] + s[1..];
    }
  }
}
