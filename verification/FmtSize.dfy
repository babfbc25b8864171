/** Choosing the unit of a backup's size (cmd/deviceos/backup.go:232-243). */
module SizeFormat {

  newtype int64 = x: int | -0x8000_0000_0000_0000 <= x < 0x8000_0000_0000_0000

  /** What the two Sprintf calls are given: a byte count, or a numerator, divisor and unit letter. */
  datatype Size = Bytes(bytes: int64) | Scaled(bytes: int64, div: int64, unit: char)

  const UNITS := "KMGTPE"

  function Pow1024(e: nat): nat {
    if e == 0 then 1 else 1024 * Pow1024(e - 1)
  }

  /** The divisor for exponent exp is the largest power of 1024 not above the size. */
  ghost predicate BestUnit(bytes: int, div: int, exp: nat) {
    div == Pow1024(exp + 1) && div <= bytes < 1024 * div
  }

  /** Kibi, mebi, gibi, tebi, pebi, exbi. */
  ghost function Letter(exp: nat): char
    requires exp <= 5
  {
    match exp case 0 => 'K' case 1 => 'M' case 2 => 'G' case 3 => 'T' case 4 => 'P' case _ => 'E'
  }

  ghost predicate HasBestUnit(s: Size)
    requires s.Scaled?
  {
    exists exp: nat | exp <= 5 :: BestUnit(s.bytes as int, s.div as int, exp) && s.unit == Letter(exp)
  }

  lemma {:induction false} Pow1024Grows(a: nat, b: nat)
    requires a <= b
    ensures 1 <= Pow1024(a) <= Pow1024(b)
  {
    if a < b {
      Pow1024Grows(a, b - 1);
    } else if a > 0 {
      Pow1024Grows(a - 1, a - 1);
    }
  }

  /** At most one exponent is right for a size, so the unit letter is determined. */
  lemma BestUnitUnique(bytes: int, d1: int, e1: nat, d2: int, e2: nat)
    requires BestUnit(bytes, d1, e1) && BestUnit(bytes, d2, e2)
    ensures e1 == e2 && d1 == d2
  {
    if e1 < e2 { Pow1024Grows(e1 + 2, e2 + 1); }
    if e2 < e1 { Pow1024Grows(e2 + 2, e1 + 1); }
  }

  lemma UnitInRange(bytes: int, div: int, exp: nat)
    requires BestUnit(bytes, div, exp) && bytes < 0x8000_0000_0000_0000
    ensures exp <= 5 && div <= 0x1000_0000_0000_0000
  {
    assert Pow1024(7) == 0x40_0000_0000_0000_0000 by {
      assert Pow1024(2) == 0x10_0000;
      assert Pow1024(4) == 0x100_0000_0000;
      assert Pow1024(6) == 0x1000_0000_0000_0000;
    }
    if exp >= 6 {
      Pow1024Grows(7, exp + 1);
    } else {
      Pow1024Grows(exp + 1, 6);
    }
  }

  lemma Monotone(k: int, a: int, b: int)
    requires k >= 0 && a <= b
    ensures k * a <= k * b
  {
  }

  lemma StillFits(bytes: int, div: int, n: int)
    requires div >= 1 && n >= 1024 && div * n <= bytes < div * (n + 1)
    ensures div * 1024 <= bytes
    ensures n / 1024 >= 1 && (div * 1024) * (n / 1024) <= bytes < (div * 1024) * (n / 1024 + 1)
  {
    var q, r := n / 1024, n % 1024;
    assert n == 1024 * q + r;
    Monotone(div, 1024, n);
    Monotone(div, 1024 * q, n);
    Monotone(div, n + 1, 1024 * (q + 1));
    assert (div * 1024) * q == div * (1024 * q);
    assert (div * 1024) * (q + 1) == div * (1024 * (q + 1));
  }

  lemma LastStep(bytes: int, div: int, n: int)
    requires div >= 1 && 1 <= n < 1024 && div * n <= bytes < div * (n + 1)
    ensures div <= bytes < 1024 * div
  {
    Monotone(div, 1, n);
    Monotone(div, n + 1, 1024);
  }

  lemma UnitLetters(exp: nat)
    requires exp <= 5
    ensures UNITS[exp] == Letter(exp)
  {
  }

  /** Finds the unit by repeated division; no multiplication of the divisor leaves 63 bits. */
  method FmtSize(bytes: int64) returns (s: Size)
    ensures bytes < 1024 ==> s == Bytes(bytes)
    ensures bytes >= 1024 ==> s.Scaled? && s.bytes == bytes && HasBestUnit(s)
    ensures s.Scaled? ==> s.div <= 0x1000_0000_0000_0000
  {
    if bytes < 1024 { return Bytes(bytes); }
    var div: int64, exp: nat := 1024, 0;
    var n := bytes / 1024;
    while n >= 1024
      invariant div as int == Pow1024(exp + 1)
      invariant n >= 1 && div as int * n as int <= bytes as int < div as int * (n as int + 1)
      decreases n
    {
      StillFits(bytes as int, div as int, n as int);
      div := div * 1024;
      exp := exp + 1;
      n := n / 1024;
    }
    LastStep(bytes as int, div as int, n as int);
    assert BestUnit(bytes as int, div as int, exp);
    UnitInRange(bytes as int, div as int, exp);
    UnitLetters(exp);
    return Scaled(bytes, div, UNITS[exp]);
  }
}
