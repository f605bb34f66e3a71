/** Printing of long numbers in base 8, 10 or 16 (__prtld and __prtint of aes/doprint.c). */
module Numerals {
  import opened LongDivision

  predicate Base(b: int) { b == 8 || b == 10 || b == 16 }

  // The digits of a number, least significant first; none for 0.
  function Digits(v: nat, b: int): (d: seq<int>)
    requires b >= 2
    ensures forall i :: 0 <= i < |d| ==> 0 <= d[i] < b
    ensures d != [] ==> d[|d| - 1] != 0
    decreases v
  {
    if v == 0 then [] else [v % b] + Digits(v / b, b)
  }

  function DigitChar(k: int, upper: bool): char
    requires 0 <= k < 16
  {
    if k < 10 then (k + '0' as int) as char else (k - 10 + (if upper then 'A' else 'a') as int) as char
  }

  lemma DigitIs(k: int)
    requires 0 <= k < 16
    ensures DigitChar(k, true) == "0123456789ABCDEF"[k] && DigitChar(k, false) == "0123456789abcdef"[k]
  {
    assert "0123456789ABCDEF"[k] == DigitChar(k, true) && "0123456789abcdef"[k] == DigitChar(k, false);
  }

  // What a character counts as a digit, or -1.
  function CharValue(c: char): int {
    if '0' <= c <= '9' then c as int - '0' as int
    else if 'A' <= c <= 'F' then c as int - 'A' as int + 10
    else if 'a' <= c <= 'f' then c as int - 'a' as int + 10
    else -1
  }

  // Digits written most significant first, from position i down.
  function Written(d: seq<int>, upper: bool): (s: string)
    requires forall i :: 0 <= i < |d| ==> 0 <= d[i] < 16
    ensures |s| == |d|
  {
    if d == [] then "" else Written(d[1..], upper) + [DigitChar(d[0], upper)]
  }

  /** Every digit is written as its character, the last one first. */
  lemma {:induction false} WrittenAt(d: seq<int>, upper: bool, i: nat)
    requires i < |d| && forall j :: 0 <= j < |d| ==> 0 <= d[j] < 16
    ensures Written(d, upper)[i] == (if upper then "0123456789ABCDEF" else "0123456789abcdef")[d[|d| - 1 - i]]
    decreases |d|
  {
    if i == |d| - 1 {
      DigitIs(d[0]);
    } else {
      WrittenAt(d[1..], upper, i);
    }
  }

  // The text of a number.
  function Numeral(v: nat, b: int, upper: bool): string
    requires Base(b)
  {
    if v == 0 then "0" else Written(Digits(v, b), upper)
  }

  predicate IsNumber(s: string, b: int) {
    s != "" && forall i :: 0 <= i < |s| ==> 0 <= CharValue(s[i]) < b
  }

  // The number a text stands for.
  function Value(s: string, b: int): int {
    if s == "" then 0 else Value(s[..|s| - 1], b) * b + CharValue(s[|s| - 1])
  }

  lemma DigitsStep(v: nat, b: int)
    requires b >= 2 && v > 0
    ensures Digits(v, b) == [v % b] + Digits(v / b, b) && Digits(v, b)[1..] == Digits(v / b, b)
  {
    assert Digits(v, b) == [v % b] + Digits(v / b, b);
  }

  lemma NoDigits(v: nat, b: int)
    requires b >= 2
    ensures Digits(v, b) == [] <==> v == 0
  {
  }

  // d, followed by the digits of v, are the digits of total.
  predicate Begun(d: seq<int>, v: int, b: int, total: int) {
    b >= 2 && v >= 0 && total >= 0 && d + Digits(v, b) == Digits(total, b)
  }

  lemma DigitOut(d: seq<int>, v: int, b: int, total: int)
    requires Begun(d, v, b, total) && v > 0
    ensures Begun(d + [v % b], v / b, b, total)
    ensures |d| < |Digits(total, b)|
  {
    DigitsStep(v, b);
    LeDiv(0, v, b);
    var r, q := v % b, v / b;
    hide Digits;
    assert d + [r] + Digits(q, b) == d + ([r] + Digits(q, b));
    assert Digits(total, b)[|d|] == r;
  }

  lemma DigitsDone(d: seq<int>, b: int, total: int)
    requires Begun(d, 0, b, total)
    ensures d == Digits(total, b)
  {
    assert d + [] == d;
  }

  lemma WrittenStep(d: seq<int>, upper: bool)
    requires d != [] && forall i :: 0 <= i < |d| ==> 0 <= d[i] < 16
    ensures Written(d, upper) == Written(d[1..], upper) + [DigitChar(d[0], upper)]
    ensures Written(d, upper)[..|d| - 1] == Written(d[1..], upper)
    ensures Written(d, upper)[|d| - 1] == DigitChar(d[0], upper)
  {
  }

  lemma ReadBack(k: int, upper: bool)
    requires 0 <= k < 16
    ensures CharValue(DigitChar(k, upper)) == k
  {
  }

  lemma ValueStep(s: string, b: int)
    requires s != ""
    ensures Value(s, b) == Value(s[..|s| - 1], b) * b + CharValue(s[|s| - 1])
  {
  }

  /** A numeral is read back as the number it was made of. */
  lemma {:induction false} WrittenValue(v: nat, b: int, upper: bool)
    requires Base(b)
    ensures Value(Written(Digits(v, b), upper), b) == v
    ensures forall i :: 0 <= i < |Digits(v, b)| ==> 0 <= CharValue(Written(Digits(v, b), upper)[i]) < b
    decreases v
  {
    if v == 0 {
      assert Digits(v, b) == [];
      return;
    }
    DigitsStep(v, b);
    DivMul(v, b);
    var d, rest := Digits(v, b), Digits(v / b, b);
    hide Digits;
    WrittenValue(v / b, b, upper);
    WrittenStep(d, upper);
    ReadBack(v % b, upper);
    hide Written, CharValue, DigitChar, Base, Value;
    var s := Written(d, upper);
    ValueStep(s, b);
    forall i | 0 <= i < |d|
      ensures 0 <= CharValue(s[i]) < b
    {
      if i < |d| - 1 {
        assert s[i] == s[..|d| - 1][i];
      }
    }
  }

  lemma NumeralValue(v: nat, b: int, upper: bool)
    requires Base(b)
    ensures IsNumber(Numeral(v, b, upper), b) && Value(Numeral(v, b, upper), b) == v
  {
    if v == 0 {
      assert "0"[..0] == "";
    } else {
      DigitsStep(v, b);
      WrittenValue(v, b, upper);
      hide Digits, Written, Value, CharValue;
    }
  }

  // b to the power n.
  function Power(b: int, n: nat): int {
    if n == 0 then 1 else b * Power(b, n - 1)
  }

  /** A number below a power of the base has no more digits than the exponent. */
  lemma {:induction false} FewDigits(v: nat, b: int, n: nat)
    requires b >= 2 && v < Power(b, n)
    ensures |Digits(v, b)| <= n
    decreases n
  {
    if v != 0 {
      LeDiv(Power(b, n - 1), v, b);
      FewDigits(v / b, b, n - 1);
    }
  }

  // The most digits that 32 bits need.
  function MaxDigits(b: int): int { if b == 8 then 11 else if b == 10 then 10 else 8 }

  lemma DigitCount(v: nat, b: int)
    requires Base(b) && v < 0x1_0000_0000
    ensures |Digits(v, b)| <= MaxDigits(b)
  {
    assert Power(8, 11) == 0x2_0000_0000 && Power(10, 10) == 10_000_000_000 && Power(16, 8) == 0x1_0000_0000;
    hide Power;
    FewDigits(v, b, MaxDigits(b));
  }

  lemma NumeralLength(v: nat, b: int, upper: bool)
    requires Base(b) && v < 0x1_0000_0000
    ensures 1 <= |Numeral(v, b, upper)| <= MaxDigits(b)
  {
    DigitCount(v, b);
    if v != 0 {
      DigitsStep(v, b);
    }
    hide Digits, Written;
  }

  /** No leading zero, except for zero itself. */
  lemma {:induction false} NoLeadingZero(v: nat, b: int, upper: bool)
    requires Base(b) && v != 0
    ensures Numeral(v, b, upper)[0] != '0'
    decreases v
  {
    var d := Digits(v, b);
    DigitsStep(v, b);
    WrittenStep(d, upper);
    if v / b != 0 {
      NoLeadingZero(v / b, b, upper);
      DigitsStep(v / b, b);
    } else {
      DivMul(v, b);
    }
  }
}

module NumberPrint {
  import opened LongDivision
  import opened Numerals

  // A long: 32 bits with sign.
  predicate Long(n: int) { -0x8000_0000 <= n < 0x8000_0000 }

  // The same bits without sign.
  function Unsigned(n: int): nat
    requires Long(n)
  {
    if n < 0 then n + W32 else n
  }

  function Signed(u: int): (n: int)
    requires 0 <= u < W32
    ensures Long(n)
  {
    if u < W32 / 2 then u else u - W32
  }

  // - on a long; the most negative number is its own negation.
  function Negated(n: int): (m: int)
    requires Long(n)
    ensures Long(m)
  {
    if n == -0x8000_0000 then n else -n
  }

  // The number whose digits are printed.
  function Magnitude(n: int, base: int, issigned: bool): nat
    requires Long(n)
  {
    if base == 10 && issigned && n < 0 then -n else Unsigned(n)
  }

  function Text(n: int, base: int, issigned: bool, upper: bool): string
    requires Long(n) && Base(base)
  {
    (if base == 10 && issigned && n < 0 then "-" else "") + Numeral(Magnitude(n, base, issigned), base, upper)
  }

  /** Stores the digits, least significant first, and a minus sign in the text buffer. */
  method Prtld(n: int, buf: array<char>, base: int, issigned: bool, digs: array<int>) returns (p: nat, pbuf: nat)
    requires Long(n) && Base(base) && digs.Length == 15 && buf.Length > 0
    modifies digs, buf
    ensures p <= MaxDigits(base) && digs[..p] == Digits(Magnitude(n, base, issigned), base)
    ensures pbuf <= 1 && buf[..pbuf] == (if base == 10 && issigned && n < 0 then "-" else "")
  {
    pbuf := 0;
    DigitCount(Magnitude(n, base, issigned), base);
    if base == 16 {
      p := HexDigits(n, digs);
    } else if base == 8 {
      p := OctalDigits(n, digs);
    } else {
      var m := n;
      if issigned && n < 0 {
        buf[pbuf] := '-';
        pbuf := pbuf + 1;
        m := Negated(n);
      }
      p := DecimalDigits(m, digs);
    }
  }

  // The bits not yet looked at as a number, when n has been shifted with its sign.
  function Left(n: int, weight: int): int {
    if n < 0 then n + weight else n
  }

  lemma BegunAtStart(v: nat)
    ensures Begun([], v, 8, v) && Begun([], v, 10, v) && Begun([], v, 16, v)
  {
    hide Digits;
    assert forall b: int :: b >= 2 ==> [] + Digits(v, b) == Digits(v, b);
  }

  /** One hexadecimal digit less: shifting with the sign keeps the digits right. */
  lemma HexShift(n: int, i: int)
    requires n != 0 && 1 <= i <= 8 && -Weight16(i) <= 2 * n < Weight16(i)
    ensures Left(n, Weight16(i)) > 0 && Weight16(i) / 16 == Weight16(i - 1)
    ensures if i > 1 then -Weight16(i - 1) <= 2 * (n / 16) < Weight16(i - 1) else -1 <= n / 16 <= 0
    ensures Left(n, Weight16(i)) % 16 == n % 16 && Left(n, Weight16(i)) / 16 == Left(n / 16, Weight16(i - 1))
  {
    assert Weight16(i) == 16 * Weight16(i - 1);
  }

  method HexDigits(n: int, digs: array<int>) returns (p: nat)
    requires Long(n) && digs.Length == 15
    modifies digs
    ensures p <= 8 && digs[..p] == Digits(Unsigned(n), 16)
  {
    hide Begun;
    p := 0;
    BegunAtStart(Unsigned(n));
    var i, n' := 8, n;
    ghost var weight := W32;
    while n' != 0 && i != 0
      invariant 0 <= i <= 8 && p == 8 - i
      invariant weight == Weight16(i) && if i > 0 then -weight <= 2 * n' < weight else -1 <= n' <= 0
      invariant Begun(digs[..p], Left(n', weight), 16, Unsigned(n))
      decreases i
    {
      label L:
      ghost var v := Left(n', weight);
      HexShift(n', i);
      DigitOut(digs[..p], v, 16, Unsigned(n));
      digs[p] := n' % 16;
      assert digs[..p + 1] == old@L(digs[..p]) + [v % 16];
      n' := n' / 16;
      weight := weight / 16;
      p := p + 1;
      i := i - 1;
    }
    assert Left(n', weight) == 0;
    DigitsDone(digs[..p], 16, Unsigned(n));
  }

  // The weight of 32 bits after 8 - i hexadecimal digits.
  function Weight16(i: int): int
    requires 0 <= i <= 8
  {
    [1, 0x10, 0x100, 0x1000, 0x1_0000, 0x10_0000, 0x100_0000, 0x1000_0000, 0x1_0000_0000][i]
  }

  // The weight of 32 bits after 11 - i octal digits.
  function Weight8(i: int): int
    requires 1 <= i <= 11
  {
    [4, 0x20, 0x100, 0x800, 0x4000, 0x2_0000, 0x10_0000, 0x80_0000, 0x400_0000, 0x2000_0000, 0x1_0000_0000][i - 1]
  }

  /** One octal digit less; the last of eleven has only two bits of its own. */
  lemma OctalShift(n: int, i: int)
    requires n != 0 && 1 <= i <= 11 && -Weight8(i) <= 2 * n < Weight8(i)
    ensures Left(n, Weight8(i)) > 0
    ensures i > 1 ==> -Weight8(i - 1) <= 2 * (n / 8) < Weight8(i - 1)
    ensures i > 1 ==> Left(n, Weight8(i)) % 8 == n % 8 && Left(n, Weight8(i)) / 8 == Left(n / 8, Weight8(i - 1))
    ensures i == 1 ==> Left(n, 4) % 8 == n % 8 % 4 && Left(n, 4) / 8 == 0
  {
    if i > 1 {
      assert Weight8(i) == 8 * Weight8(i - 1);
    }
  }

  method OctalDigits(n: int, digs: array<int>) returns (p: nat)
    requires Long(n) && digs.Length == 15
    modifies digs
    ensures p <= 11 && digs[..p] == Digits(Unsigned(n), 8)
  {
    hide Begun;
    p := 0;
    BegunAtStart(Unsigned(n));
    var i, n' := 11, n;
    while n' != 0 && i != 0
      invariant 0 <= i <= 11 && p == 11 - i
      invariant i > 0 ==> -Weight8(i) <= 2 * n' < Weight8(i)
      invariant i > 0 ==> Begun(digs[..p], Left(n', Weight8(i)), 8, Unsigned(n))
      invariant i == 0 ==> Begun(digs[..10] + [digs[10] % 4], 0, 8, Unsigned(n))
      decreases i
    {
      label L:
      ghost var v := Left(n', Weight8(i));
      OctalShift(n', i);
      DigitOut(digs[..p], v, 8, Unsigned(n));
      hide Left, Weight8;
      digs[p] := n' % 8;
      assert digs[..p] == old@L(digs[..p]);
      assert digs[..p + 1] == digs[..p] + [digs[p]];
      n' := n' / 8;
      p := p + 1;
      i := i - 1;
    }
    label M:
    if i == 0 {
      digs[p - 1] := digs[p - 1] % 4;
      assert digs[..p] == digs[..10] + [digs[10]];
      assert digs[..10] == old@M(digs[..10]);
    }
    DigitsDone(digs[..p], 8, Unsigned(n));
  }

  method DecimalDigits(m: int, digs: array<int>) returns (p: nat)
    requires Long(m) && digs.Length == 15
    modifies digs
    ensures p <= 10 && digs[..p] == Digits(Unsigned(m), 10)
  {
    hide Begun;
    p := 0;
    BegunAtStart(Unsigned(m));
    var n := m;
    DigitCount(Unsigned(m), 10);
    while n != 0
      invariant Long(n) && p <= 10
      invariant Begun(digs[..p], Unsigned(n), 10, Unsigned(m))
      decreases Unsigned(n)
    {
      DigitOut(digs[..p], Unsigned(n), 10, Unsigned(m));
      label L:
      var r := Ulrem(Unsigned(n), 10);
      digs[p] := r;
      assert digs[..p + 1] == old@L(digs[..p]) + [r];
      p := p + 1;
      var q := Uldiv(Unsigned(n), 10);
      n := Signed(q);
    }
    DigitsDone(digs[..p], 10, Unsigned(m));
  }

  /** Prints a long; the text ends with a null character, buf is long enough for 11 characters and the end mark. */
  method Prtint(n: int, buf: array<char>, base: int, issigned: bool, upper: bool) returns (p: nat)
    requires Long(n) && Base(base) && buf.Length >= 12
    modifies buf
    ensures p < buf.Length && buf[p] == '\0'
    ensures buf[..p] == Text(n, base, issigned, upper)
  {
    hide Text, Digits, Magnitude, Written;
    var digs := new int[15];
    var dp, pb := Prtld(n, buf, base, issigned, digs);
    NoDigits(Magnitude(n, base, issigned), base);
    assert dp == |digs[..dp]|;
    if dp == 0 {
      digs[0] := 0;
      dp := 1;
    }
    ghost var sign, d := buf[..pb], digs[..dp];
    Final(n, base, issigned, upper, sign, d);
    assert forall i :: 0 <= i < dp ==> digs[i] == d[i];
    p := WriteOut(digs, dp, buf, pb, upper);
    label M:
    buf[p] := '\0';
    assert buf[..p] == old@M(buf[..p]);
  }

  /** The loop of __prtint: the digits as characters, last one first. */
  method WriteOut(digs: array<int>, n: nat, buf: array<char>, start: nat, upper: bool) returns (p: nat)
    requires n <= digs.Length && start + n <= buf.Length
    requires forall i :: 0 <= i < n ==> 0 <= digs[i] < 16
    modifies buf
    ensures p == start + n && buf[..p] == old(buf[..start]) + Written(digs[..n], upper)
  {
    hide Written;
    WrittenNone(upper);
    var dp := n;
    p := start;
    ghost var d, front := digs[..n], buf[..start];
    assert d[dp..] == [];
    while dp != 0
      invariant dp <= n && p == start + n - dp && digs[..n] == d
      invariant buf[..p] == front + Written(d[dp..], upper)
    {
      label L:
      dp := dp - 1;
      var k := digs[dp];
      assert k == d[dp] && d[dp..][1..] == d[dp + 1..];
      WrittenStep(d[dp..], upper);
      ghost var rest := Written(d[dp + 1..], upper);
      if k < 10 {
        k := k + '0' as int;
      } else {
        k := k + if upper then 'A' as int - 10 else 'a' as int - 10;
      }
      buf[p] := k as char;
      assert buf[p] == DigitChar(d[dp], upper);
      hide DigitChar;
      assert buf[..p + 1] == old@L(buf[..p]) + [buf[p]];
      assert front + rest + [buf[p]] == front + (rest + [buf[p]]);
      p := p + 1;
    }
    assert d[0..] == d;
  }

  lemma WrittenNone(upper: bool)
    ensures Written([], upper) == ""
  {
  }

  // The pieces of the text: sign and digits.
  lemma Final(n: int, base: int, issigned: bool, upper: bool, sign: string, d: seq<int>)
    requires Long(n) && Base(base)
    requires sign == if base == 10 && issigned && n < 0 then "-" else ""
    requires d == if Magnitude(n, base, issigned) == 0 then [0] else Digits(Magnitude(n, base, issigned), base)
    ensures forall i :: 0 <= i < |d| ==> 0 <= d[i] < 16
    ensures sign + Written(d, upper) == Text(n, base, issigned, upper)
  {
    WrittenNone(upper);
    if Magnitude(n, base, issigned) == 0 {
      assert d[1..] == [];
    }
  }

  lemma MagnitudeIs(n: int, base: int, issigned: bool)
    requires Long(n)
    ensures Magnitude(n, base, issigned) == if base == 10 && issigned && n < 0 then -n else n % W32
    ensures Magnitude(n, base, issigned) < W32
  {
  }

  /**
   The printed text reads back as the number modulo 2 to the 32, or as the sign and the magnitude for signed decimal;
   it has at most 11 digits and no needless zero.
   */
  lemma PrintedValue(n: int, base: int, issigned: bool, upper: bool)
    requires Long(n) && Base(base)
    ensures
      var t := Text(n, base, issigned, upper);
      if base == 10 && issigned && n < 0
      then t[0] == '-' && IsNumber(t[1..], 10) && Value(t[1..], 10) == -n && 1 < |t| <= 11
      else IsNumber(t, base) && Value(t, base) == n % W32 && 1 <= |t| <= 11
  {
    hide Numeral, IsNumber, Value, Magnitude;
    var v := Magnitude(n, base, issigned);
    MagnitudeIs(n, base, issigned);
    NumeralValue(v, base, upper);
    NumeralLength(v, base, upper);
    assert 0 <= MaxDigits(base) <= 11;
    var t := Text(n, base, issigned, upper);
    if base == 10 && issigned && n < 0 {
      assert t[1..] == Numeral(v, base, upper);
    } else {
      assert t == Numeral(v, base, upper);
    }
  }
}
