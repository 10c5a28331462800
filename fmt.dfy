/** `FmtCount` and `FmtFileSize` of `report/fmt.go`: a number below the
    unit is printed whole; otherwise it is divided by the largest power of
    the unit not above it, and that power names the suffix letter. */
module Fmt {
  import opened Ints
  import opened Decimal

  const SUFFIXES: string := "KMGTPE"

  /** What the formatters print: a whole number, or `%.1f` of the number
      divided by `div` followed by `suffix`. */
  datatype Rendering = Exact(text: string) | Scaled(div: nat, exp: nat, suffix: string)

  function Pow(u: nat, e: nat): nat {
    if e == 0 then 1 else u * Pow(u, e - 1)
  }

  lemma {:induction false} PowMonotone(u: nat, a: nat, b: nat)
    requires u >= 1 && a <= b
    ensures Pow(u, a) <= Pow(u, b)
    decreases b
  {
    if a < b {
      PowMonotone(u, a, b - 1);
      MulGrows(u, Pow(u, b - 1));
    }
  }

  lemma MulGrows(u: nat, x: nat)
    requires u >= 1
    ensures x <= u * x
  {
    assert u * x == x + (u - 1) * x;
  }

  lemma PowValues()
    ensures Pow(1000, 4) == 1_000_000_000_000
    ensures Pow(1024, 7) == 0x40_0000_0000_0000_0000
  {
    assert Pow(1000, 2) == 1000 * Pow(1000, 1);
    assert Pow(1024, 2) == 1024 * Pow(1024, 1);
    assert Pow(1024, 4) == 1024 * (1024 * Pow(1024, 2));
    assert Pow(1024, 6) == 1024 * (1024 * Pow(1024, 4));
  }

  /** Integer division brackets the dividend. */
  lemma Bracket(a: nat, b: nat)
    requires b > 0
    ensures (a / b) * b <= a < (a / b + 1) * b
  {
    assert a == (a / b) * b + a % b;
  }

  /** Dividing twice is dividing by the product. */
  lemma DivDiv(a: nat, b: nat, c: nat)
    requires b > 0 && c > 0
    ensures a / b / c == a / (b * c)
  {
    var p := a / b;
    var q := p / c;
    Bracket(a, b);
    Bracket(p, c);
    MulMono(q * c, p, b);
    MulMono(p + 1, (q + 1) * c, b);
    MulAssoc(q, c, b);
    MulAssoc(q + 1, c, b);
    DivUnique(a, b * c, q);
  }

  lemma MulMono(x: nat, y: nat, b: nat)
    requires x <= y
    ensures x * b <= y * b
  {
  }

  lemma MulAssoc(x: nat, y: nat, z: nat)
    ensures (x * y) * z == x * (z * y)
  {
  }

  lemma DivUnique(a: nat, d: nat, q: nat)
    requires d > 0 && q * d <= a < (q + 1) * d
    ensures a / d == q
  {
    Bracket(a, d);
  }

  /** The scale of a number at least `u`: `div == u^(exp+1)` and
      `div <= x < u * div`. */
  ghost predicate ScaledBy(x: nat, u: nat, div: nat, exp: nat) {
    div == Pow(u, exp + 1) && div <= x < u * div
  }

  /** One more round of the loop: dividing once more by the unit is
      dividing by the next power, which is still at most `x`. */
  lemma ScaleStep(x: nat, u: nat, div: nat, exp: nat)
    requires u >= 2 && div >= 1 && div == Pow(u, exp + 1) && x / div >= u
    ensures div * u <= x && div * u == Pow(u, exp + 2)
    ensures x / div / u == x / (div * u)
  {
    Bracket(x, div);
    assert u * div <= (x / div) * div;
    DivDiv(x, div, u);
  }

  /** When the quotient drops below the unit, `x < u * div`. */
  lemma ScaleExit(x: nat, u: nat, div: nat)
    requires div >= 1 && x / div < u
    ensures x < u * div
  {
    Bracket(x, div);
    assert (x / div + 1) * div <= u * div;
  }

  /** A power of the unit no larger than a bound below `u^k` has an
      exponent below `k`. */
  lemma ExpBelow(u: nat, e: nat, k: nat, x: nat)
    requires u >= 1 && Pow(u, e) <= x < Pow(u, k)
    ensures e < k
  {
    if e >= k {
      PowMonotone(u, k, e);
    }
  }

  /** `FmtCount`. The loop's `div *= unit` on a uint32 is proved not to wrap. */
  method FmtCount(count: uint32) returns (r: Rendering)
    ensures count < 1000 ==> r == Exact(Format(count))
    ensures count >= 1000 ==>
      && r.Scaled? && r.exp <= 2
      && ScaledBy(count, 1000, r.div, r.exp)
      && r.suffix == [SUFFIXES[r.exp]]
  {
    if count < 1000 {
      return Exact(Format(count));
    }
    var div: uint32 := 1000;
    var exp: nat := 0;
    var n: uint32 := count / 1000;
    PowValues();
    while n >= 1000
      invariant 1000 <= div == Pow(1000, exp + 1) <= count
      invariant n == count / div
      invariant exp <= 2
      decreases n
    {
      ScaleStep(count, 1000, div, exp);
      ExpBelow(1000, exp + 2, 4, count);
      div := div * 1000;
      exp := exp + 1;
      n := n / 1000;
    }
    ScaleExit(count, 1000, div);
    r := Scaled(div, exp, [SUFFIXES[exp]]);
  }

  /** `FmtFileSize`. Sizes below 1024, negative ones included, are printed
      whole with a "B"; the loop's `div *= unit` on an int64 is proved not
      to overflow, and the exponent stays a valid index of the suffixes. */
  method FmtFileSize(size: int64) returns (r: Rendering)
    ensures size < 1024 ==> r == Exact(FormatInt(size) + "B")
    ensures size >= 1024 ==>
      && r.Scaled? && r.exp <= 5
      && ScaledBy(size, 1024, r.div, r.exp)
      && r.suffix == [SUFFIXES[r.exp], 'B']
  {
    if size < 1024 {
      return Exact(FormatInt(size) + "B");
    }
    var div: int64 := 1024;
    var exp: nat := 0;
    var n: int64 := size / 1024;
    PowValues();
    while n >= 1024
      invariant 1024 <= div == Pow(1024, exp + 1) <= size
      invariant n == size / div
      invariant exp <= 5
      decreases n
    {
      ScaleStep(size, 1024, div, exp);
      ExpBelow(1024, exp + 2, 7, size);
      div := div * 1024;
      exp := exp + 1;
      n := n / 1024;
    }
    ScaleExit(size, 1024, div);
    r := Scaled(div, exp, [SUFFIXES[exp], 'B']);
  }

  /** The scale of a number is unique: one exponent brackets it. */
  lemma {:induction false} ScaleUnique(x: nat, u: nat, d1: nat, e1: nat, d2: nat, e2: nat)
    requires u >= 2 && ScaledBy(x, u, d1, e1) && ScaledBy(x, u, d2, e2)
    ensures e1 == e2 && d1 == d2
  {
    if e1 < e2 {
      PowMonotone(u, e1 + 2, e2 + 1);
    } else if e2 < e1 {
      PowMonotone(u, e2 + 2, e1 + 1);
    }
  }
}
