/** 32-bit sequence numbers and clocks, compared the way the engine compares them:
    by the sign of the wrapped difference. */
module Serial {
  type u32 = x: int | 0 <= x < 0x1_0000_0000
  type u16 = x: int | 0 <= x < 0x1_0000
  type byte = x: int | 0 <= x < 0x100

  const HALF := 0x8000_0000

  /** Conversion of any integer to an unsigned 32-bit value. */
  function Wrap(x: int): (r: u32)
    ensures 0 <= x < 0x1_0000_0000 ==> r == x
  {
    x % 0x1_0000_0000
  }

  /** Conversion of any integer to a signed 32-bit value. */
  function ToI32(x: int): (r: int)
    ensures -0x8000_0000 <= r < 0x8000_0000
    ensures -0x8000_0000 <= x < 0x8000_0000 ==> r == x
    ensures Wrap(r) == Wrap(x)
  {
    var u := x % 0x1_0000_0000;
    if u < 0x8000_0000 then u else u - 0x1_0000_0000
  }

  function TimeDiff(later: u32, earlier: u32): int {
    ToI32(later - earlier)
  }

  /** How far `sn` lies ahead of `base` on the 32-bit circle. */
  function Off(base: u32, sn: u32): nat {
    (sn - base) % 0x1_0000_0000
  }

  function Min(a: int, b: int): int { if a <= b then a else b }

  function Max(a: int, b: int): int { if a >= b then a else b }

  /** `_ibound_`: raise to the lower bound first, then cut at the upper one. */
  function Bound(lower: int, middle: int, upper: int): int {
    Min(Max(lower, middle), upper)
  }

  /** C division: towards zero. */
  function Quotient(a: int, b: int): int
    requires b > 0
  {
    if a >= 0 then a / b else -(-a / b)
  }

  lemma MultipleGrows(m: int, d: int)
    requires m > 0
    ensures d >= 1 ==> m * d >= m
    ensures d <= -1 ==> m * d <= -m
  {
    if d >= 1 { assert m * d == m + m * (d - 1); }
    if d <= -1 { assert m * d == -m + m * (d + 1); }
  }

  lemma DivUnique(l: int, m: int, q: int, rest: int)
    requires l == m * q + rest && 0 <= rest < m
    ensures l / m == q && l % m == rest
  {
    assert l == m * (l / m) + l % m;
    MultipleGrows(m, q - l / m);
  }

  /** The four digits of a number to the base 256, the lowest first. */
  lemma DigitsOf(a: byte, b: byte, c: byte, d: byte)
    ensures var l := a + 256 * b + 65536 * c + 16777216 * d;
      l % 256 == a && l / 256 % 256 == b && l / 65536 % 256 == c && l / 16777216 == d
  {
    var l: int := a + 256 * b + 65536 * c + 16777216 * d;
    DivUnique(l, 256, b + 256 * c + 65536 * d, a);
    DivUnique(l, 65536, c + 256 * d, a + 256 * b);
    DivUnique(l, 16777216, d, a + 256 * b + 65536 * c);
    DivUnique(b + 256 * c + 65536 * d, 256, c + 256 * d, b);
    DivUnique(c + 256 * d, 256, d, c);
  }

  /** Numbers less than half the circle apart compare like the unbounded numbers they stand for. */
  lemma DiffExact(a: int, b: int)
    requires -HALF <= a - b < HALF
    ensures TimeDiff(Wrap(a), Wrap(b)) == a - b
  {
    var k := a / 0x1_0000_0000 - b / 0x1_0000_0000;
    assert Wrap(a) - Wrap(b) == a - b - 0x1_0000_0000 * k && -1 <= k <= 1;
  }

  lemma WrapDiff(later: u32, earlier: u32)
    ensures Wrap(earlier + TimeDiff(later, earlier)) == later
  {
    hide ToI32, Wrap;
    WrapAdd(TimeDiff(later, earlier), earlier);
    WrapAdd(later - earlier, earlier);
  }

  lemma DiffAdd(later: u32, earlier: u32, k: int)
    requires -HALF <= TimeDiff(later, earlier) + k < HALF
    ensures TimeDiff(Wrap(later + k), earlier) == TimeDiff(later, earlier) + k
  {
    hide ToI32, Wrap;
    var a := earlier + TimeDiff(later, earlier);
    WrapDiff(later, earlier);
    WrapAdd(a, k);
    DiffExact(a + k, earlier);
  }

  lemma DiffOpposite(x: u32, y: u32)
    requires TimeDiff(x, y) != -0x8000_0000
    ensures TimeDiff(y, x) == -TimeDiff(x, y)
  {
    hide ToI32, Wrap;
    WrapDiff(x, y);
    DiffExact(y, y + TimeDiff(x, y));
  }

  /** Two numbers whose offsets from a common base differ by less than half the circle
      compare like those offsets. */
  lemma DiffOff(base: u32, x: u32, y: u32)
    requires -HALF <= Off(base, x) - Off(base, y) < HALF
    ensures TimeDiff(x, y) == Off(base, x) - Off(base, y)
  {
    hide TimeDiff, Off, Wrap;
    AdvanceTo(base, x);
    AdvanceTo(base, y);
    DiffExact(base + Off(base, x), base + Off(base, y));
  }

  /** Going ahead from `base` by the offset of `sn` leads to `sn`. */
  lemma AdvanceTo(base: u32, sn: u32)
    ensures Wrap(base + Off(base, sn)) == sn && Off(base, sn) < 0x1_0000_0000
  {
    var k := if sn >= base then 0 else 1;
    DivUnique(sn - base, 0x1_0000_0000, -k, sn - base + 0x1_0000_0000 * k);
    DivUnique(sn + 0x1_0000_0000 * k, 0x1_0000_0000, k, sn);
  }

  lemma WrapBack(a: int)
    ensures Wrap(a - 0x1_0000_0000) == Wrap(a)
  {
    DivUnique(a - 0x1_0000_0000, 0x1_0000_0000, a / 0x1_0000_0000 - 1, a % 0x1_0000_0000);
  }

  lemma OffInjective(base: u32, x: u32, y: u32)
    requires Off(base, x) == Off(base, y)
    ensures x == y
  {
    hide Off, Wrap;
    AdvanceTo(base, x);
    AdvanceTo(base, y);
  }

  lemma OffSelf(base: u32, sn: u32)
    ensures Off(base, sn) == 0 <==> sn == base
  {}

  /** Advancing the base by `a` takes `a` off the offset of everything at least that far ahead. */
  lemma OffAdvance(base: u32, a: nat, sn: u32)
    requires a <= Off(base, sn)
    ensures Off(Wrap(base + a), sn) == Off(base, sn) - a
  {
    DivUnique(sn - Wrap(base + a), 0x1_0000_0000, (sn - base) / 0x1_0000_0000 + (base + a) / 0x1_0000_0000,
              Off(base, sn) - a);
  }

  lemma OffWrap(base: u32, a: nat)
    requires a < 0x1_0000_0000
    ensures Off(base, Wrap(base + a)) == a
  {
    DivUnique(Wrap(base + a) - base, 0x1_0000_0000, -((base + a) / 0x1_0000_0000), a);
  }

  lemma WrapAdd(a: int, b: int)
    ensures Wrap(Wrap(a) + b) == Wrap(a + b)
  {
    DivUnique(Wrap(a) + b, 0x1_0000_0000, (a + b) / 0x1_0000_0000 - a / 0x1_0000_0000, (a + b) % 0x1_0000_0000);
  }

  /** The window test of the receiver: less than `wnd` ahead of `base`. */
  lemma WindowTest(base: u32, wnd: u32, sn: u32)
    requires 0 < wnd < HALF
    ensures (TimeDiff(sn, base) >= 0 && TimeDiff(sn, Wrap(base + wnd)) < 0) <==> Off(base, sn) < wnd
  {
    hide TimeDiff, Off, Wrap;
    AdvanceTo(base, sn);
    var a := base + Off(base, sn);
    WrapBack(a);
    if Off(base, sn) < HALF {
      DiffExact(a, base);
      DiffExact(a, base + wnd);
    } else {
      DiffExact(a - 0x1_0000_0000, base);
    }
  }
}
