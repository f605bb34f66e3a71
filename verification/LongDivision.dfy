/** 32-bit division on a processor whose own division yields 16 bits (uldiv and ulrem of aes/doprint.c). */
module LongDivision {

  const W16: int := 0x1_0000
  const W32: int := 0x1_0000_0000

  // The low and the high word of a register.
  function Lo(x: int): int { x % W16 }
  function Hi(x: int): int { x / W16 }

  // swap
  function Swap(x: int): int { Lo(x) * W16 + Hi(x) }

  // move.w into a register: the low word is replaced.
  function MoveW(x: int, w: int): int { Hi(x) * W16 + Lo(w) }

  // divu: remainder and quotient packed into one register; on overflow the register keeps its value.
  function Divu(x: int, w: int): int
    requires Lo(w) != 0
  {
    if x / Lo(w) < W16 then (x % Lo(w)) * W16 + x / Lo(w) else x
  }

  // mulu: 16 by 16 bits, 32 bits of product.
  function Mulu(x: int, y: int): int { Lo(x) * Lo(y) }

  lemma Words(hi: int, lo: int)
    requires 0 <= lo < W16
    ensures Lo(hi * W16 + lo) == lo && Hi(hi * W16 + lo) == hi
  {
  }

  lemma DivMul(n: int, d: int)
    requires d > 0
    ensures n / d * d + n % d == n && 0 <= n % d < d
  {
  }

  lemma MulLe(a: int, b: int, c: int)
    requires a <= b && c >= 0
    ensures a * c <= b * c
  {
  }

  lemma DivUnique(n: int, d: int, q: int)
    requires d > 0 && q * d <= n < q * d + d
    ensures n / d == q
  {
    DivMul(n, d);
    var k := n / d;
    if k > q {
      MulLe(q + 1, k, d);
    } else if k < q {
      MulLe(k + 1, q, d);
    }
  }

  /** q * d <= n exactly for the quotients up to n / d. */
  lemma LeDiv(q: int, n: int, d: int)
    requires d > 0
    ensures q * d <= n <==> q <= n / d
  {
    DivMul(n, d);
    if q <= n / d {
      MulLe(q, n / d, d);
    } else {
      MulLe(n / d + 1, q, d);
    }
  }

  /** Long division in two 16-bit steps: the remainder of the high word goes in front of the low word. */
  lemma TwoSteps(h: int, l: int, d: int)
    requires 0 <= h < W16 && 0 <= l < W16 && 0 < d < W16
    ensures 0 <= h / d < W16 && 0 <= h % d < W16 && 0 <= (h % d * W16 + l) / d < W16
    ensures (h * W16 + l) / d == h / d * W16 + (h % d * W16 + l) / d
  {
    var qh, rh := h / d, h % d;
    DivMul(h, d);
    LeDiv(W16, h, d);
    LeDiv(0, h, d);
    MulLe(1, d, W16);
    MulLe(rh, d - 1, W16);
    var rest := rh * W16 + l;
    LeDiv(0, rest, d);
    LeDiv(W16, rest, d);
    DivMul(rest, d);
    SumOfSteps(h, l, d, qh, rh, rest / d, rest % d);
  }

  lemma SumOfSteps(h: int, l: int, d: int, qh: int, rh: int, ql: int, rl: int)
    requires d > 0 && h == qh * d + rh && rh * W16 + l == ql * d + rl && 0 <= rl < d
    ensures (h * W16 + l) / d == qh * W16 + ql
  {
    assert (qh * W16 + ql) * d == qh * d * W16 + ql * d;
    DivUnique(h * W16 + l, d, qh * W16 + ql);
  }

  /**
   Shifting both operands until the divisor has 16 bits gives a tentative quotient that is right or one too large.
   s is the power of two shifted out, rn and rd the bits lost.
   */
  lemma Tentative(n: int, d: int, s: int, n1: int, d1: int, rn: int, rd: int)
    requires 0 <= n < W32 && n == n1 * s + rn && 0 <= rn < s && n1 >= 0
    requires d == d1 * s + rd && 0 <= rd < s
    requires W16 / 2 <= d1 < W16 && (s == 2 || s >= 4)
    ensures d > 0 && 0 <= n / d <= n1 / d1 <= n / d + 1
    ensures n1 / d1 < W16
  {
    MulLe(W16 / 2, d1, s);
    var q, t := n / d, n1 / d1;
    LeDiv(0, n, d);
    LeDiv(0, n1, d1);
    LeDiv(q, n, d);
    LeDiv(t, n1, d1);
    NotTooSmall(n, d, s, n1, d1, rn, rd, q);
    LeDiv(q, n1, d1);
    AtMostOneMore(n, d, s, n1, d1, rn, rd, t);
    LeDiv(t - 1, n, d);
  }

  lemma NotTooSmall(n: int, d: int, s: int, n1: int, d1: int, rn: int, rd: int, q: int)
    requires n == n1 * s + rn && 0 <= rn < s && d == d1 * s + rd && 0 <= rd < s
    requires q >= 0 && q * d <= n
    ensures q * d1 <= n1
  {
    Expanded(q, d, d1, s, rd);
    MulLe(0, q, rd);
    if q * d1 > n1 {
      MulLe(n1 + 1, q * d1, s);
    }
  }

  lemma AtMostOneMore(n: int, d: int, s: int, n1: int, d1: int, rn: int, rd: int, t: int)
    requires 0 <= n < W32 && n == n1 * s + rn && 0 <= rn < s && d == d1 * s + rd && 0 <= rd < s
    requires W16 / 2 <= d1 && (s == 2 || s >= 4)
    requires t >= 0 && t * d1 <= n1
    ensures (t - 1) * d <= n && t < W16
  {
    MulLe(t * d1, n1, s);
    TentativeSmall(n, s, t, d1);
    MulLe(W16 / 2, d1, s);
    LostPart(s, t, rd);
    Expanded(t, d, d1, s, rd);
    assert (t - 1) * d == t * d - d;
  }

  // The part of the product that the lost bits of the divisor make up.
  lemma LostPart(s: int, t: int, rd: int)
    requires 0 <= rd < s && (s == 2 || s >= 4) && t >= 0 && t * s < 2 * W16 && t < W16
    ensures t * rd <= W16 / 2 * s
  {
    if s == 2 {
      MulLe(rd, 1, t);
    } else {
      MulLe(rd, s, t);
    }
  }

  lemma Expanded(t: int, d: int, d1: int, s: int, rd: int)
    requires d == d1 * s + rd
    ensures t * d == t * d1 * s + t * rd
  {
    assert t * (d1 * s) == t * d1 * s;
  }

  lemma TentativeSmall(n: int, s: int, t: int, d1: int)
    requires 0 <= n < W32 && t * d1 * s <= n && t >= 0 && d1 >= W16 / 2 && s >= 2
    ensures t * s < 2 * W16 && t < W16
  {
    MulLe(W16 / 2, d1, t * s);
    assert t * d1 * s == d1 * (t * s);
    MulLe(2, s, t);
  }

  /** The 33-bit product of a 16-bit quotient and the divisor, from its two partial products. */
  lemma Product(t: int, d: int)
    requires 0 <= t < W16 && 0 <= d < W32
    ensures t * d == t * Lo(d) + t * Hi(d) * W16
    ensures 0 <= t * Lo(d) < W32 && 0 <= t * Hi(d) < W32
    ensures Swap(t * Hi(d)) == Lo(t * Hi(d)) * W16 + Hi(t * Hi(d))
    ensures Hi(t * Hi(d)) != 0 ==> t * d >= W32
    ensures Hi(t * Hi(d)) == 0 ==> Swap(t * Hi(d)) == t * Hi(d) * W16
  {
    assert d == Hi(d) * W16 + Lo(d);
    assert t * d == t * (Hi(d) * W16) + t * Lo(d);
    var h := t * Hi(d);
    assert t * (Hi(d) * W16) == h * W16;
    MulLe(t, W16 - 1, Lo(d));
    MulLe(Lo(d), W16 - 1, W16 - 1);
    MulLe(t, W16 - 1, Hi(d));
    MulLe(Hi(d), W16 - 1, W16 - 1);
    assert t * Lo(d) >= 0 && h >= 0;
  }

  /** The exact unsigned quotient; al1 and al2 are the 32-bit operands. */
  method Uldiv(al1: int, al2: int) returns (d0: int)
    requires 0 <= al1 < W32 && 0 < al2 < W32
    ensures d0 == al1 / al2
  {
    var d1, d2: int;
    d1 := al2;
    d0 := al1;
    if d1 < W16 {
      SmallDivisor(al1, al2, Hi(al1), Lo(al1));
      hide Lo, Hi, MoveW, Swap, Divu;
      d2 := d0;
      d2 := MoveW(d2, 0);
      d2 := Swap(d2);
      d2 := Divu(d2, d1);
      d0 := MoveW(d0, d2);
      d0 := Swap(d0);
      d2 := MoveW(d2, Lo(al1));
      d2 := Divu(d2, d1);
      d0 := MoveW(d0, d2);
      return;
    }
    d2 := d1;
    d1, d0 := Shifted(al1, al2);
    d0 := Divu(d0, d1);
    d0 := Lo(d0);
    assert d0 == al1 / al2 || d0 == al1 / al2 + 1;
    d0 := Adjusted(al1, al2, d0);
  }

  /** The registers along the short way; h and l are the words of the dividend. */
  lemma SmallDivisor(n: int, d: int, h: int, l: int)
    requires n == h * W16 + l && 0 <= h < W16 && 0 <= l < W16 && 0 < d < W16
    ensures
      && Lo(d) == d && Lo(n) == l
      && var d2 := Divu(Swap(MoveW(n, 0)), d);
      && var d0 := Swap(MoveW(n, d2));
      MoveW(d0, Divu(MoveW(d2, l), d)) == n / d
  {
    TwoSteps(h, l, d);
    var qh, rh := h / d, h % d;
    var rest := rh * W16 + l;
    Words(h, l);
    hide Lo, Hi;
    assert Lo(d) == d && Lo(l) == l && Lo(qh) == qh && Lo(0) == 0 by {
      Small(d);
      Small(l);
      Small(qh);
      Small(0);
    }
    Words(h, 0);
    assert MoveW(n, 0) == h * W16 + 0;
    assert Swap(MoveW(n, 0)) == h;
    assert Divu(h, d) == rh * W16 + qh;
    Words(rh, qh);
    assert MoveW(n, rh * W16 + qh) == h * W16 + qh;
    Words(h, qh);
    assert Swap(h * W16 + qh) == qh * W16 + h;
    assert MoveW(rh * W16 + qh, l) == rest;
    Words(rest % d, rest / d);
    assert Divu(rest, d) == rest % d * W16 + rest / d;
    Words(qh, h);
  }

  lemma Small(x: int)
    requires 0 <= x < W16
    ensures Lo(x) == x
  {
  }

  /** The loop at L3004: both operands shifted until the divisor fits a word; divu then gives a quotient of 16 bits. */
  method Shifted(al1: int, al2: int) returns (d1: int, d0: int)
    requires 0 <= al1 < W32 && W16 <= al2 < W32
    ensures 0 < Lo(d1) && 0 <= al1 / al2 <= Lo(Divu(d0, d1)) <= al1 / al2 + 1
  {
    hide Lost, Lo, Divu;
    d1, d0 := al2, al1;
    ghost var s := 2;
    Halved(al1);
    Halved(al2);
    d1 := d1 / 2;
    d0 := d0 / 2;
    while d1 >= W16
      invariant W16 / 2 <= d1 && 0 <= d0 < W32 / 2 && (s == 2 || s >= 4)
      invariant Lost(al1, d0, s) && Lost(al2, d1, s)
      decreases d1
    {
      Halve(al1, d0, s);
      Halve(al2, d1, s);
      s := 2 * s;
      d1 := d1 / 2;
      d0 := d0 / 2;
    }
    ShiftedQuotient(al1, al2, s, d0, d1);
  }

  // x is n with its low bits shifted out, s being the power of two for their number.
  predicate Lost(n: int, x: int, s: int) {
    0 <= n - x * s < s
  }

  lemma Halved(n: int)
    ensures Lost(n, n / 2, 2)
  {
  }

  lemma Halve(n: int, x: int, s: int)
    requires Lost(n, x, s)
    ensures Lost(n, x / 2, 2 * s)
  {
    assert x == 2 * (x / 2) + x % 2;
    assert x * s == 2 * (x / 2) * s + x % 2 * s;
  }

  lemma ShiftedQuotient(n: int, d: int, s: int, n1: int, d1: int)
    requires 0 <= n < W32 && 0 < d < W32 && Lost(n, n1, s) && Lost(d, d1, s) && n1 >= 0
    requires W16 / 2 <= d1 < W16 && (s == 2 || s >= 4)
    ensures 0 < Lo(d1) && 0 <= n / d <= Lo(Divu(n1, d1)) <= n / d + 1
  {
    Tentative(n, d, s, n1, d1, n - n1 * s, d - d1 * s);
    Small(d1);
    hide Lost;
    Words(n1 % d1, n1 / d1);
  }

  // The two partial products, and what is in front of the high one.
  lemma PartProducts(t: int, d: int)
    requires 0 <= t < W16 && 0 <= d < W32
    ensures Mulu(t, d) == t * Lo(d) && Mulu(t, Swap(d)) == t * Hi(d)
    ensures Lo(Swap(t * Hi(d))) == Hi(t * Hi(d))
  {
    Words(Lo(d), Hi(d));
    Small(t);
    hide Swap;
    PartSwapped(t * Hi(d), d, t);
  }

  lemma PartSwapped(x: int, d: int, t: int)
    requires 0 <= t < W16 && 0 <= d < W32 && x == t * Hi(d)
    ensures Lo(Swap(x)) == Hi(x)
  {
    Product(t, d);
    Words(Lo(x), Hi(x));
  }

  /** From L3004's end on: the product tells whether the tentative quotient was one too large. */
  method Adjusted(al1: int, al2: int, tentative: int) returns (d0: int)
    requires 0 <= al1 < W32 && W16 <= al2 < W32
    requires 0 <= tentative < W16 && (tentative == al1 / al2 || tentative == al1 / al2 + 1)
    ensures d0 == al1 / al2
  {
    d0 := tentative;
    LeDiv(d0, al1, al2);
    Product(d0, al2);
    PartProducts(d0, al2);
    hide Mulu, Swap, Lo, Hi;
    var d1, d2 := al2, al2;
    d1 := Mulu(d0, d1);
    d2 := Swap(d2);
    d2 := Mulu(d0, d2);
    d2 := Swap(d2);
    if Lo(d2) != 0 {
      d0 := d0 - 1;
      return;
    }
    var sum := d1 + d2;
    d1 := sum % W32;
    if sum >= W32 {
      d0 := d0 - 1;
      return;
    }
    if d1 > al1 {
      d0 := d0 - 1;
    }
  }

  /** The exact unsigned remainder: the 32-bit product in it never wraps. */
  method Ulrem(al1: int, al2: int) returns (r: int)
    requires 0 <= al1 < W32 && 0 < al2 < W32
    ensures r == al1 % al2
  {
    var q := Uldiv(al1, al2);
    DivMul(al1, al2);
    LeDiv(q, al1, al2);
    LeDiv(0, al1, al2);
    assert 0 <= q * al2 < W32;
    r := (al1 - q * al2 % W32) % W32;
  }
}
