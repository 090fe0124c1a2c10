/** The JavaScript string operations the services rely on: `<` on strings, `endsWith`,
    `split` on one character and `trim`. */
module JsStrings {
  import opened Wrappers

  /** JavaScript's `<` on strings: lexicographic order of the characters. */
  predicate StrLess(a: string, b: string)
  {
    if a == [] then b != []
    else if b == [] then false
    else if a[0] != b[0] then a[0] < b[0]
    else StrLess(a[1..], b[1..])
  }

  lemma {:induction false} StrLessIrreflexive(a: string)
    ensures !StrLess(a, a)
  {
    if a != [] {
      StrLessIrreflexive(a[1..]);
    }
  }

  lemma {:induction false} StrLessTotal(a: string, b: string)
    ensures a == b || StrLess(a, b) || StrLess(b, a)
  {
    if a != [] && b != [] && a[0] == b[0] {
      StrLessTotal(a[1..], b[1..]);
      if a[1..] == b[1..] {
        assert a == [a[0]] + a[1..] && b == [b[0]] + b[1..];
      }
    }
  }

  lemma {:induction false} StrLessTransitive(a: string, b: string, c: string)
    requires StrLess(a, b) && StrLess(b, c)
    ensures StrLess(a, c)
  {
    if a != [] && a[0] == b[0] && b[0] == c[0] {
      StrLessTransitive(a[1..], b[1..], c[1..]);
    }
  }

  /** "Not below" is transitive, as the newest-document search needs. */
  lemma NotLessTransitive(a: string, b: string, c: string)
    requires !StrLess(a, b) && !StrLess(b, c)
    ensures !StrLess(a, c)
  {
    StrLessTotal(a, b);
    StrLessTotal(b, c);
    if StrLess(a, c) {
      if a == b {
      } else if b == c {
      } else {
        StrLessTransitive(c, b, a);
        StrLessTransitive(a, c, a);
        StrLessIrreflexive(a);
      }
    }
  }

  predicate EndsWith(s: string, suffix: string)
  {
    |suffix| <= |s| && s[|s| - |suffix|..] == suffix
  }

  /** JavaScript's `split` on a one-character separator. */
  function Split(s: string, sep: char): (parts: seq<string>)
    ensures |parts| >= 1
    decreases |s|
  {
    if s == [] then [""]
    else if s[0] == sep then [""] + Split(s[1..], sep)
    else
      var rest := Split(s[1..], sep);
      [[s[0]] + rest[0]] + rest[1..]
  }

  /** Joining the pieces with the separator gives back the string, and no piece contains
      the separator. */
  lemma {:induction false} SplitJoin(s: string, sep: char)
    ensures Join(Split(s, sep), [sep]) == s
    ensures forall i :: 0 <= i < |Split(s, sep)| ==> sep !in Split(s, sep)[i]
  {
    if s != [] {
      SplitJoin(s[1..], sep);
      var rest := Split(s[1..], sep);
      if s[0] == sep {
        assert ([""] + rest)[1..] == rest;
        assert s == [sep] + s[1..];
      } else {
        var parts := [[s[0]] + rest[0]] + rest[1..];
        assert parts[1..] == rest[1..];
        if |rest| > 1 {
          assert rest[1..][1..] == rest[2..];
          assert Join(rest, [sep]) == rest[0] + [sep] + Join(rest[1..], [sep]);
        }
        assert s == [s[0]] + s[1..];
        assert forall i :: 1 <= i < |parts| ==> parts[i] == rest[i];
      }
    }
  }

  /** Splitting a piece with no separator, then the separator, then the rest. */
  lemma {:induction false} SplitPrefix(x: string, sep: char, y: string)
    requires sep !in x
    ensures Split(x + [sep] + y, sep) == [x] + Split(y, sep)
    decreases |x|
  {
    if x == [] {
      assert [] + [sep] + y == [sep] + y;
      assert ([sep] + y)[1..] == y;
    } else {
      assert (x + [sep] + y)[1..] == x[1..] + [sep] + y;
      assert (x + [sep] + y)[0] == x[0];
      SplitPrefix(x[1..], sep, y);
      assert [x[0]] + x[1..] == x;
    }
  }

  lemma {:induction false} SplitNone(x: string, sep: char)
    requires sep !in x
    ensures Split(x, sep) == [x]
    decreases |x|
  {
    if x != [] {
      SplitNone(x[1..], sep);
      assert [x[0]] + x[1..] == x;
    }
  }

  /** The white space and line terminators that `String.prototype.trim` removes and that
      `\s` matches in a regular expression. */
  predicate IsSpace(c: char)
  {
    || c == ' ' || c == '\t' || c == '\n' || c == '\r' || c == '\U{000B}' || c == '\U{000C}'
    || c == '\U{00A0}' || c == '\U{1680}' || '\U{2000}' <= c <= '\U{200A}' || c == '\U{2028}'
    || c == '\U{2029}' || c == '\U{202F}' || c == '\U{205F}' || c == '\U{3000}' || c == '\U{FEFF}'
  }

  function TrimStart(s: string): (r: string)
    ensures |r| <= |s| && r == s[|s| - |r|..]
    ensures r != [] ==> !IsSpace(r[0])
  {
    if s != [] && IsSpace(s[0]) then TrimStart(s[1..]) else s
  }

  function TrimEnd(s: string): (r: string)
    ensures |r| <= |s| && r == s[..|r|]
    ensures r != [] ==> !IsSpace(r[|r| - 1])
  {
    if s != [] && IsSpace(s[|s| - 1]) then TrimEnd(s[..|s| - 1]) else s
  }

  function Trim(s: string): string
  {
    TrimEnd(TrimStart(s))
  }

  /** A string without surrounding white space is its own trim. */
  lemma TrimUnchanged(s: string)
    requires s != [] ==> !IsSpace(s[0]) && !IsSpace(s[|s| - 1])
    ensures Trim(s) == s
  {}

  // ---------------------------------------------------------------------------------------
  // Hexadecimal digits

  /** A hexadecimal digit, in either case, and its value. */
  predicate IsHexDigit(c: char)
  {
    '0' <= c <= '9' || 'a' <= c <= 'f' || 'A' <= c <= 'F'
  }

  function HexValue(c: char): (v: nat)
    requires IsHexDigit(c)
    ensures v < 16
  {
    if '0' <= c <= '9' then c as nat - '0' as nat
    else if 'a' <= c <= 'f' then c as nat - 'a' as nat + 10
    else c as nat - 'A' as nat + 10
  }

  /** Lower-case hexadecimal digit of a value below 16. */
  function HexChar(d: nat): (c: char)
    requires d < 16
    ensures IsHexDigit(c) && HexValue(c) == d
  {
    if d < 10 then ('0' as nat + d) as char else ('a' as nat + d - 10) as char
  }

  /** A number's `toString()` or its `${n}` in a template: the decimal digits, most
      significant first. */
  function DecimalText(n: nat): (s: string)
    ensures s != [] && forall i :: 0 <= i < |s| ==> '0' <= s[i] <= '9'
  {
    if n < 10 then [('0' as int + n) as char] else DecimalText(n / 10) + [('0' as int + n % 10) as char]
  }

  /** The number a string of decimal digits denotes. */
  function DecimalValue(s: string): nat
    requires forall i :: 0 <= i < |s| ==> '0' <= s[i] <= '9'
  {
    if s == [] then 0 else 10 * DecimalValue(s[..|s| - 1]) + (s[|s| - 1] as int - '0' as int)
  }

  /** Reading the decimal text back gives the number. */
  lemma {:induction false} DecimalRoundTrip(n: nat)
    ensures DecimalValue(DecimalText(n)) == n
  {
    var s := DecimalText(n);
    if n >= 10 {
      DecimalRoundTrip(n / 10);
      assert s[..|s| - 1] == DecimalText(n / 10);
    } else {
      assert s[..|s| - 1] == [];
    }
  }

  // ---------------------------------------------------------------------------------------
  // Numbers read from text

  /** What `ToIntegerOrInfinity` gives: an integer or an infinity. */
  datatype Whole = Finite(n: int) | Infinite(positive: bool)

  /** A digit of the given radix (2, 8, 10 or 16). */
  predicate IsDigitIn(c: char, radix: nat)
  {
    IsHexDigit(c) && HexValue(c) < radix
  }

  predicate AllDigitsIn(s: string, radix: nat)
  {
    forall i :: 0 <= i < |s| ==> IsDigitIn(s[i], radix)
  }

  /** The number the digits denote, most significant first. */
  function RadixValue(s: string, radix: nat): nat
    requires AllDigitsIn(s, radix)
  {
    if s == [] then 0 else radix * RadixValue(s[..|s| - 1], radix) + HexValue(s[|s| - 1])
  }

  /** Decimal digits read in radix 10 denote what `DecimalValue` says. */
  lemma {:induction false} RadixDecimal(s: string)
    requires forall i :: 0 <= i < |s| ==> '0' <= s[i] <= '9'
    ensures AllDigitsIn(s, 10) && RadixValue(s, 10) == DecimalValue(s)
  {
    if s != [] {
      RadixDecimal(s[..|s| - 1]);
    }
  }

  /** The index of the first `c` in `s`, or `|s|` when there is none. */
  function IndexOf(s: string, c: char): (i: nat)
    ensures i <= |s| && (i < |s| ==> s[i] == c) && forall k :: 0 <= k < i ==> s[k] != c
  {
    if s == [] then 0 else if s[0] == c then 0 else 1 + IndexOf(s[1..], c)
  }

  /** The index of the first exponent mark, `e` or `E`, or `|s|` when there is none. */
  function IndexOfExponent(s: string): (i: nat)
    ensures i <= |s| && (i < |s| ==> IsExponentMark(s[i])) && forall k :: 0 <= k < i ==> !IsExponentMark(s[k])
  {
    if s == [] then 0 else if IsExponentMark(s[0]) then 0 else 1 + IndexOfExponent(s[1..])
  }

  /** `m * 10^e` truncated toward zero. */
  function Scaled(m: nat, e: int): nat
    decreases if e >= 0 then e else -e
  {
    if e == 0 then m else if e > 0 then 10 * Scaled(m, e - 1) else Scaled(m, e + 1) / 10
  }

  predicate IsSign(c: char)
  {
    c == '+' || c == '-'
  }

  predicate IsExponentMark(c: char)
  {
    c == 'e' || c == 'E'
  }

  /** The second character of `0x`, `0o` or `0b`, in either case. */
  predicate IsRadixMark(c: char)
  {
    c == 'x' || c == 'X' || c == 'o' || c == 'O' || c == 'b' || c == 'B'
  }

  /** An exponent's digits with an optional sign, or `None` when there are no digits. */
  function SignedExponent(t: string): (r: Option<int>)
  {
    var neg := t != [] && t[0] == '-';
    var d := if t != [] && IsSign(t[0]) then t[1..] else t;
    if d == [] || !AllDigitsIn(d, 10) then None
    else
      var v: int := RadixValue(d, 10);
      Some(if neg then -v else v)
  }

  /** A StrUnsignedDecimalLiteral other than `Infinity` (digits, an optional fraction after
      `.`, an optional exponent, and at least one digit before the exponent), truncated
      toward zero; `None` for any other text. */
  function UnsignedDecimal(u: string): (r: Option<nat>)
  {
    var x := IndexOfExponent(u);
    var exponent := if x == |u| then Some(0) else SignedExponent(u[x + 1..]);
    var mantissa := u[..x];
    var d := IndexOf(mantissa, '.');
    var whole := mantissa[..d];
    var fraction := if d == |mantissa| then [] else mantissa[d + 1..];
    if exponent.None? || (whole == [] && fraction == []) then None
    else if !AllDigitsIn(whole, 10) || !AllDigitsIn(fraction, 10) then None
    else Some(Scaled(RadixValue(whole + fraction, 10), exponent.value - |fraction|))
  }

  /** `ToIntegerOrInfinity(ToNumber(s))` for a string (sections 7.1.4.1.1 and 7.1.5 of
      ECMA-262): surrounding white space is ignored and the empty text is 0; `0x`, `0o` and
      `0b` introduce hexadecimal, octal and binary digits; otherwise an optional sign and
      `Infinity` or a decimal literal, whose fraction is cut off. Any other text is `NaN`,
      which becomes 0. */
  function StringToInteger(s: string): Whole
  {
    TrimmedToInteger(Trim(s))
  }

  /** `StringToInteger` of a text without surrounding white space. */
  function TrimmedToInteger(t: string): Whole
  {
    if t == [] then Finite(0)
    else if |t| >= 2 && t[0] == '0' && IsRadixMark(t[1]) then
      var radix := if t[1] == 'x' || t[1] == 'X' then 16 else if t[1] == 'o' || t[1] == 'O' then 8 else 2;
      var ds := t[2..];
      if ds != [] && AllDigitsIn(ds, radix) then Finite(RadixValue(ds, radix)) else Finite(0)
    else SignedDecimal(t)
  }

  /** A StrDecimalLiteral: an optional sign, then `Infinity` or an unsigned decimal. */
  function SignedDecimal(t: string): Whole
    requires t != []
  {
    var neg := t[0] == '-';
    var u := if IsSign(t[0]) then t[1..] else t;
    if u == "Infinity" then Infinite(!neg)
    else match UnsignedDecimal(u)
      case Some(m) => var v: int := m; Finite(if neg then -v else v)
      case None => Finite(0)
  }

  /** A number's text: its decimal digits, after `-` when it is negative. */
  function NumberText(n: int): (s: string)
    ensures s != [] && !IsSpace(s[0]) && !IsSpace(s[|s| - 1])
    ensures forall i :: 0 <= i < |s| ==> '0' <= s[i] <= '9' || s[i] == '-'
  {
    if n < 0 then "-" + DecimalText(-n) else DecimalText(n)
  }

  /** Digits without a `.` or an exponent are read as the number they spell. */
  lemma {:induction false} UnsignedDigits(u: string)
    requires u != [] && forall i :: 0 <= i < |u| ==> '0' <= u[i] <= '9'
    ensures UnsignedDecimal(u) == Some(DecimalValue(u))
  {
    assert forall k :: 0 <= k < |u| ==> !IsExponentMark(u[k]) && u[k] != '.';
    assert u[..|u|] == u;
    RadixDecimal(u);
    assert u + [] == u;
  }

  /** Decimal digits are read as the number they spell, with or without a `-` before them. */
  lemma {:induction false} SignedDigits(d: string, neg: bool)
    requires d != [] && forall i :: 0 <= i < |d| ==> '0' <= d[i] <= '9'
    ensures SignedDecimal(if neg then "-" + d else d) ==
            Finite(if neg then -(DecimalValue(d) as int) else DecimalValue(d))
  {
    UnsignedDigits(d);
    assert d[0] != 'I';
    if neg {
      assert ("-" + d)[1..] == d;
    }
  }

  lemma {:induction false} TrimmedDigits(d: string, neg: bool)
    requires d != [] && forall i :: 0 <= i < |d| ==> '0' <= d[i] <= '9'
    ensures TrimmedToInteger(if neg then "-" + d else d) ==
            Finite(if neg then -(DecimalValue(d) as int) else DecimalValue(d))
  {
    SignedDigits(d, neg);
    assert |d| >= 2 ==> !IsRadixMark(d[1]);
  }

  lemma {:induction false} DigitsRead(d: string)
    requires d != [] && forall i :: 0 <= i < |d| ==> '0' <= d[i] <= '9'
    ensures StringToInteger(d) == Finite(DecimalValue(d))
  {
    TrimmedDigits(d, false);
    TrimUnchanged(d);
  }

  lemma {:induction false} NegatedDigitsRead(d: string)
    requires d != [] && forall i :: 0 <= i < |d| ==> '0' <= d[i] <= '9'
    ensures StringToInteger("-" + d) == Finite(-(DecimalValue(d) as int))
  {
    TrimmedDigits(d, true);
    TrimUnchanged("-" + d);
  }

  /** A number's text reads back as the number. */
  lemma {:induction false} NumberTextRead(n: int)
    ensures StringToInteger(NumberText(n)) == Finite(n)
  {
    var m: nat := if n < 0 then -n else n;
    var d := DecimalText(m);
    DecimalRoundTrip(m);
    if n < 0 {
      NegatedDigitsRead(d);
      assert NumberText(n) == "-" + d;
    } else {
      DigitsRead(d);
      assert NumberText(n) == d;
    }
  }
  /** White space before a text does not change the number it is read as. */
  lemma {:induction false} LeadingSpaceRead(c: char, s: string)
    requires IsSpace(c)
    ensures StringToInteger([c] + s) == StringToInteger(s)
  {
    assert ([c] + s)[1..] == s;
  }

  /** `0x` before hexadecimal digits is read as the number they denote. */
  lemma {:induction false} HexRead(ds: string)
    requires ds != [] && AllDigitsIn(ds, 16)
    ensures StringToInteger("0x" + ds) == Finite(RadixValue(ds, 16))
  {
    var t := "0x" + ds;
    assert t[0] == '0' && t[1] == 'x' && t[2..] == ds;
    assert IsHexDigit(t[|t| - 1]);
    TrimUnchanged(t);
  }

  /** Cutting the last digit off is dividing by ten. */
  lemma {:induction false} ScaledDown(m: nat, k: nat)
    requires k >= 1
    ensures Scaled(m, -(k as int)) == Scaled(m / 10, 1 - (k as int))
    decreases k
  {
    if k > 1 {
      ScaledDown(m, k - 1);
    }
  }

  /** Digits `w` followed by fraction digits `f`, scaled down by `f`'s length, are `w`. */
  lemma {:induction false} FractionCut(w: string, f: string)
    requires AllDigitsIn(w, 10) && AllDigitsIn(f, 10)
    ensures AllDigitsIn(w + f, 10) && Scaled(RadixValue(w + f, 10), -|f|) == RadixValue(w, 10)
    decreases |f|
  {
    if f == [] {
      assert w + f == w;
    } else {
      var g := f[..|f| - 1];
      FractionCut(w, g);
      assert (w + f)[..|w + f| - 1] == w + g;
      var a := RadixValue(w + g, 10);
      var v := 10 * a + HexValue(f[|f| - 1]);
      assert RadixValue(w + f, 10) == v;
      ScaledDown(v, |f|);
      assert v / 10 == a;
    }
  }

  /** A text that starts with a digit and ends with no white space is read as the unsigned
      decimal it spells. */
  lemma {:induction false} UnsignedRead(u: string, v: nat)
    requires u != [] && '0' <= u[0] <= '9' && !IsSpace(u[|u| - 1])
    requires |u| >= 2 ==> !IsRadixMark(u[1])
    requires UnsignedDecimal(u) == Some(v)
    ensures StringToInteger(u) == Finite(v)
  {
    assert SignedDecimal(u) == Finite(v) by {
      assert !IsSign(u[0]) && u[0] != 'I';
    }
    TrimUnchanged(u);
  }

  /** Digits with a fraction after the `.` at index `d` are read without the fraction. */
  lemma {:induction false} FractionRead(u: string, d: nat)
    requires 0 < d < |u| && u[d] == '.'
    requires forall k :: 0 <= k < |u| && k != d ==> '0' <= u[k] <= '9'
    ensures AllDigitsIn(u[..d], 10) && StringToInteger(u) == Finite(RadixValue(u[..d], 10))
  {
    FractionDecimal(u, d);
    UnsignedRead(u, RadixValue(u[..d], 10));
  }

  lemma {:induction false} FractionDecimal(u: string, d: nat)
    requires 0 < d < |u| && u[d] == '.'
    requires forall k :: 0 <= k < |u| && k != d ==> '0' <= u[k] <= '9'
    ensures AllDigitsIn(u[..d], 10) && UnsignedDecimal(u) == Some(RadixValue(u[..d], 10))
  {
    FractionParts(u, d);
    FractionCut(u[..d], u[d + 1..]);
  }

  /** Where `UnsignedDecimal` splits digits with one `.` at index `d`. */
  lemma {:induction false} FractionParts(u: string, d: nat)
    requires 0 < d < |u| && u[d] == '.'
    requires forall k :: 0 <= k < |u| && k != d ==> '0' <= u[k] <= '9'
    ensures IndexOfExponent(u) == |u| && u[..|u|] == u && IndexOf(u, '.') == d
    ensures AllDigitsIn(u[..d], 10) && AllDigitsIn(u[d + 1..], 10)
  {
    assert forall k :: 0 <= k < |u| ==> !IsExponentMark(u[k]);
    assert u[..|u|] == u;
    var w, f := u[..d], u[d + 1..];
    assert forall k :: 0 <= k < |w| ==> w[k] == u[k];
    assert forall k :: 0 <= k < |f| ==> f[k] == u[d + 1 + k];
  }

  /** Digits with an exponent after the `e` at index `d` are read as the digits before it
      times that power of ten. */
  lemma {:induction false} ExponentRead(u: string, d: nat)
    requires 0 < d < |u| - 1 && u[d] == 'e'
    requires forall k :: 0 <= k < |u| && k != d ==> '0' <= u[k] <= '9'
    ensures AllDigitsIn(u[..d], 10) && AllDigitsIn(u[d + 1..], 10)
    ensures StringToInteger(u) == Finite(Scaled(RadixValue(u[..d], 10), RadixValue(u[d + 1..], 10)))
  {
    ExponentDecimal(u, d);
    UnsignedRead(u, Scaled(RadixValue(u[..d], 10), RadixValue(u[d + 1..], 10)));
  }

  lemma {:induction false} ExponentDecimal(u: string, d: nat)
    requires 0 < d < |u| - 1 && u[d] == 'e'
    requires forall k :: 0 <= k < |u| && k != d ==> '0' <= u[k] <= '9'
    ensures AllDigitsIn(u[..d], 10) && AllDigitsIn(u[d + 1..], 10)
    ensures UnsignedDecimal(u) == Some(Scaled(RadixValue(u[..d], 10), RadixValue(u[d + 1..], 10)))
  {
    ExponentParts(u, d);
    var w, x := u[..d], u[d + 1..];
    assert !IsSign(x[0]);
    assert SignedExponent(x) == Some(RadixValue(x, 10) as int);
    assert w + [] == w;
  }

  /** Where `UnsignedDecimal` splits digits with one `e` at index `d`. */
  lemma {:induction false} ExponentParts(u: string, d: nat)
    requires 0 < d < |u| - 1 && u[d] == 'e'
    requires forall k :: 0 <= k < |u| && k != d ==> '0' <= u[k] <= '9'
    ensures IndexOfExponent(u) == d && IndexOf(u[..d], '.') == d && u[..d][..d] == u[..d]
    ensures AllDigitsIn(u[..d], 10) && AllDigitsIn(u[d + 1..], 10)
  {
    var w, x := u[..d], u[d + 1..];
    assert forall k :: 0 <= k < |w| ==> w[k] == u[k] && !IsExponentMark(u[k]) && u[k] != '.';
    assert forall k :: 0 <= k < |x| ==> x[k] == u[d + 1 + k];
    assert w[..d] == w;
  }

  /** Text with no `.` and no exponent mark, but a character that is no digit, is no
      unsigned decimal. */
  lemma {:induction false} NoDecimal(u: string, k: nat)
    requires forall i :: 0 <= i < |u| ==> !IsExponentMark(u[i]) && u[i] != '.'
    requires k < |u| && !IsDigitIn(u[k], 10)
    ensures UnsignedDecimal(u) == None
  {
    assert IndexOfExponent(u) == |u|;
    assert u[..|u|] == u;
    assert IndexOf(u, '.') == |u|;
    assert !AllDigitsIn(u, 10);
  }

  /** A text that starts with a letter other than the `I` of `Infinity` is `NaN`, read as 0. */
  lemma {:induction false} LetterRead(s: string)
    requires s != [] && ('a' <= s[0] <= 'z' || 'A' <= s[0] <= 'H' || 'J' <= s[0] <= 'Z')
    requires !IsSpace(s[|s| - 1])
    ensures StringToInteger(s) == Finite(0)
  {
    TrimUnchanged(s);
    assert !IsDigitIn(s[0], 10);
    var x := IndexOfExponent(s);
    var d := IndexOf(s[..x], '.');
    assert d > 0 ==> s[..x][..d][0] == s[0];
  }

  /** A text of digits, `-` and at least one `,`, as an array of numbers joins to, is `NaN`,
      read as 0. */
  lemma {:induction false} CommaRead(s: string, k: nat)
    requires forall i :: 0 <= i < |s| ==> '0' <= s[i] <= '9' || s[i] == '-' || s[i] == ','
    requires k < |s| && s[k] == ','
    ensures StringToInteger(s) == Finite(0)
  {
    CommaSigned(s, k);
    assert |s| >= 2 ==> !IsRadixMark(s[1]);
    assert !IsSpace(s[0]) && !IsSpace(s[|s| - 1]);
    TrimUnchanged(s);
  }

  lemma {:induction false} CommaSigned(s: string, k: nat)
    requires forall i :: 0 <= i < |s| ==> '0' <= s[i] <= '9' || s[i] == '-' || s[i] == ','
    requires k < |s| && s[k] == ','
    ensures s != [] && SignedDecimal(s) == Finite(0)
  {
    var u := if IsSign(s[0]) then s[1..] else s;
    var j := if IsSign(s[0]) then k - 1 else k;
    assert j < |u| && u[j] == ',';
    NoDecimal(u, j);
    assert u != "Infinity" by {
      assert u[j] == ',';
    }
  }
}
