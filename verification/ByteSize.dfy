/** The unit choice of formatBytes (types.go), in uint64 arithmetic. */
module ByteSize {
  import opened Basics

  const UNIT := 1024
  const TWO_TO_64 := 0x1_0000_0000_0000_0000
  const UNITS := "KMGTPE"

  type Uint64 = x: int | 0 <= x < 0x1_0000_0000_0000_0000

  ghost function Pow1024(n: nat): nat {
    if n == 0 then 1 else UNIT * Pow1024(n - 1)
  }

  /** The unit 1024^(e + 1) shows the size as a number from 1 up to 1024. */
  ghost predicate Fits(bytes: int, e: nat) {
    Pow1024(e + 1) <= bytes < Pow1024(e + 2)
  }

  lemma {:induction false} PowersGrow(a: nat, b: nat)
    requires a <= b
    ensures 1 <= Pow1024(a) <= Pow1024(b)
  {
    if a < b {
      PowersGrow(a, b - 1);
    } else if a > 0 {
      PowersGrow(a - 1, a - 1);
    }
  }

  /** No two units fit. */
  lemma UnitIsUnique(bytes: int, d: nat, e: nat)
    requires Fits(bytes, d) && Fits(bytes, e)
    ensures d == e
  {
    if d < e {
      PowersGrow(d + 2, e + 1);
    } else if e < d {
      PowersGrow(e + 2, d + 1);
    }
  }

  lemma SixUnits()
    ensures Pow1024(6) == 0x1000_0000_0000_0000
  {
    assert Pow1024(1) == UNIT && Pow1024(2) == UNIT * UNIT;
    assert Pow1024(3) == UNIT * Pow1024(2) && Pow1024(4) == UNIT * Pow1024(3);
    assert Pow1024(5) == UNIT * Pow1024(4) && Pow1024(6) == UNIT * Pow1024(5);
  }

  /** One more division of n by the unit keeps bytes between n and n + 1 times the divisor. */
  lemma DivideOnce(bytes: nat, n: nat, div: nat)
    requires n * div <= bytes < (n + 1) * div
    ensures n / UNIT * (div * UNIT) <= bytes < (n / UNIT + 1) * (div * UNIT)
  {
    var p, t := n / UNIT, n % UNIT;
    Product(p, t, div);
    Product(p, UNIT - 1, div);
    ProductsGrow(t + UNIT * p + 1, UNIT * p + UNIT, div);
  }

  lemma Product(p: nat, t: nat, div: nat)
    ensures (t + UNIT * p) * div == t * div + p * (div * UNIT)
    ensures (UNIT * p + UNIT) * div == (p + 1) * (div * UNIT)
  {
  }

  lemma QuotientBelow(a: nat, b: nat)
    requires 0 < b && a < UNIT * b
    ensures a / b < UNIT
  {
    var q := a / b;
    assert q * b <= a;
    if q >= UNIT {
      ProductsGrow(UNIT, q, b);
    }
  }

  /** The divisor and the unit index formatBytes ends with. */
  method ChooseUnit(bytes: Uint64) returns (div: Uint64, exp: nat)
    requires bytes >= UNIT
    ensures div == Pow1024(exp + 1) && 0 < div <= bytes && bytes / div < UNIT
    ensures exp < |UNITS| && Fits(bytes, exp)
  {
    div, exp := UNIT, 0;
    assert Pow1024(1) == UNIT * Pow1024(0);
    var n := bytes / UNIT;
    SixUnits();
    while n >= UNIT
      invariant div == Pow1024(exp + 1) && div > 0
      invariant n >= 1 && n * div <= bytes < (n + 1) * div
      invariant exp < |UNITS|
      decreases n
    {
      ProductsGrow(UNIT, n, div);
      assert Pow1024(exp + 2) == UNIT * div;
      DivideOnce(bytes, n, div);
      div := (div * UNIT) % TWO_TO_64;
      exp := exp + 1;
      n := n / UNIT;
    }
    ProductsGrow(1, n, div);
    ProductsGrow(n + 1, UNIT, div);
    QuotientBelow(bytes, div);
    assert Pow1024(exp + 2) == UNIT * div;
  }

  /** The letter of the chosen unit, by size. */
  lemma UnitLetter(bytes: Uint64, exp: nat)
    requires exp < |UNITS| && Fits(bytes, exp)
    ensures UNITS[exp] ==
            if bytes < 0x10_0000 then 'K'
            else if bytes < 0x4000_0000 then 'M'
            else if bytes < 0x100_0000_0000 then 'G'
            else if bytes < 0x4_0000_0000_0000 then 'T'
            else if bytes < 0x1000_0000_0000_0000 then 'P'
            else 'E'
  {
    SixUnits();
    assert Pow1024(1) == 0x400 && Pow1024(2) == 0x10_0000;
    assert Pow1024(3) == 0x4000_0000 && Pow1024(4) == 0x100_0000_0000 && Pow1024(5) == 0x4_0000_0000_0000;
    if bytes < 0x10_0000 {
      UnitIsUnique(bytes, exp, 0);
    } else if bytes < 0x4000_0000 {
      UnitIsUnique(bytes, exp, 1);
    } else if bytes < 0x100_0000_0000 {
      UnitIsUnique(bytes, exp, 2);
    } else if bytes < 0x4_0000_0000_0000 {
      UnitIsUnique(bytes, exp, 3);
    } else if bytes < 0x1000_0000_0000_0000 {
      UnitIsUnique(bytes, exp, 4);
    } else {
      assert Pow1024(7) == UNIT * Pow1024(6);
      UnitIsUnique(bytes, exp, 5);
    }
  }
}
