/** The stripe patterns the projector shows
    (01-structured-light-with-blender-and-halide/scripts/create_patterns.py):
    seven square images, 1024 columns wide, where pattern i lights column c
    when c mod (2 * step) is strictly above step, with step = 1024 / 2^(i+1).
    Pattern 0 is the coarsest, so the patterns spell a plain binary column
    code, most significant bit first, as the decoder reads it. */
module Patterns {
  import opened Pixels
  import opened Binary
  import opened Decoder

  /** Side of every pattern image, in pixels. */
  const Rows: nat := 1024

  /** Number of patterns, one per decoded frame. */
  const PatternCount: nat := 7

  /** The number of stripes of pattern i, 2^(i+1): an even number, so dark
      and lit stripes pair up, and for every pattern a divisor of the row
      width, the quotient being 2^(9 - i). */
  function Divisions(i: nat): (d: nat)
    ensures d >= 2 && d % 2 == 0
    ensures i < PatternCount ==> d * Pow2(9 - i) == Rows
  {
    var d := Pow2(i + 1);
    if i < PatternCount then
      Pow2Add(i + 1, 9 - i);
      assert Pow2(10) == 1024;
      d
    else d
  }

  /** The width of one stripe of pattern i, 2^(9 - i): the row width split
      into `Divisions(i)` equal stripes, never narrower than 8 columns. The
      script computes it as rows / divisions; `StepExact` shows that this
      division is exact. */
  function Step(i: nat): (st: nat)
    requires i < PatternCount
    ensures st >= 8 && Divisions(i) * st == Rows
  {
    Pow2Add(3, 6 - i);
    Pow2(9 - i)
  }

  /** The stripe width of each pattern: 512, 256, ..., 8. */
  lemma StepValue(i: nat)
    requires i < PatternCount
    ensures Step(i) == if i == 0 then 512 else if i == 1 then 256 else if i == 2 then 128
      else if i == 3 then 64 else if i == 4 then 32 else if i == 5 then 16 else 8
  {
    if i == 0 { assert Step(i) == Pow2(9); }
    else if i == 1 { assert Step(i) == Pow2(8); }
    else if i == 2 { assert Step(i) == Pow2(7); }
    else if i == 3 { assert Step(i) == Pow2(6); }
    else if i == 4 { assert Step(i) == Pow2(5); }
    else if i == 5 { assert Step(i) == Pow2(4); }
    else { assert Step(i) == Pow2(3); }
  }

  /** The division rows / divisions is exact for every pattern and gives
      the stripe width, so the script's floating-point `step` is a whole
      number; it is never below 8. */
  lemma StepExact(i: nat)
    requires i < PatternCount
    ensures Divisions(i) * Step(i) == Rows && Rows / Divisions(i) == Step(i) && Step(i) >= 8
  {
    StepValue(i);
    if i == 0 { assert Divisions(i) == Pow2(1); }
    else if i == 1 { assert Divisions(i) == Pow2(2); }
    else if i == 2 { assert Divisions(i) == Pow2(3); }
    else if i == 3 { assert Divisions(i) == Pow2(4); }
    else if i == 4 { assert Divisions(i) == Pow2(5); }
    else if i == 5 { assert Divisions(i) == Pow2(6); }
    else { assert Divisions(i) == Pow2(7); }
  }

  /** One dark and one lit stripe: 2^i whole periods span the row. */
  function Period(i: nat): (p: nat)
    requires i < PatternCount
    ensures p >= 16 && p * Pow2(i) == Rows
  {
    Pow2Add(i, 10 - i);
    assert Pow2(10 - i) == 2 * Pow2(9 - i);
    assert Pow2(10) == 1024;
    2 * Step(i)
  }

  /** The value of pattern i in column c, in every row: 1 when the column's
      offset within its period is strictly above the stripe width, 0
      otherwise. Every cell is 0 or 1, so the saved image is black or white. */
  function Cell(i: nat, c: nat): (v: real)
    requires i < PatternCount
    ensures v == 0.0 || v == 1.0
  {
    if c % Period(i) > Step(i) then 1.0 else 0.0
  }

  /** Moving a whole number of periods along the row does not change a cell. */
  lemma CellPeriodic(i: nat, c: nat, k: nat)
    requires i < PatternCount
    ensures Cell(i, c + k * Period(i)) == Cell(i, c)
  {
    var p := Period(i);
    assert c + k * p == p * (c / p + k) + c % p;
    DivModUnique(c + k * p, p, c / p + k, c % p);
  }

  /** Inside the first period a column is its own offset. */
  lemma OffsetInFirstPeriod(i: nat, o: nat)
    requires i < PatternCount && o < Period(i)
    ensures o % Period(i) == o
  {
    DivModUnique(o, Period(i), 0, o);
  }

  /** Within period k, the offsets above the stripe width are lit and the
      others, the stripe width itself included, are dark. */
  lemma CellInPeriod(i: nat, k: nat, o: nat)
    requires i < PatternCount && o < Period(i)
    ensures Cell(i, k * Period(i) + o) == 1.0 <==> o > Step(i)
  {
    CellPeriodic(i, o, k);
    OffsetInFirstPeriod(i, o);
    assert o + k * Period(i) == k * Period(i) + o;
  }

  /** The number of lit columns among columns start, ..., start + n - 1. */
  function LitCount(i: nat, start: nat, n: nat): (count: nat)
    requires i < PatternCount
    ensures count <= n
  {
    if n == 0 then 0
    else LitCount(i, start, n - 1) + (if Cell(i, start + n - 1) == 1.0 then 1 else 0)
  }

  /** Counting from the start of any period gives the same as counting from
      column 0. */
  lemma {:induction false} LitCountShift(i: nat, k: nat, n: nat)
    requires i < PatternCount
    ensures LitCount(i, k * Period(i), n) == LitCount(i, 0, n)
  {
    if n > 0 {
      LitCountShift(i, k, n - 1);
      CellPeriodic(i, n - 1, k);
      assert k * Period(i) + n - 1 == n - 1 + k * Period(i);
    }
  }

  /** The first n columns of a period hold n - step - 1 lit columns once n
      passes step + 1, and none before. */
  lemma {:induction false} LitCountPrefix(i: nat, n: nat)
    requires i < PatternCount && n <= Period(i)
    ensures LitCount(i, 0, n) == if n <= Step(i) + 1 then 0 else n - Step(i) - 1
  {
    if n > 0 {
      LitCountPrefix(i, n - 1);
      OffsetInFirstPeriod(i, n - 1);
    }
  }

  /** Every full period of pattern i has exactly step - 1 lit columns. */
  lemma LitPerPeriod(i: nat, k: nat)
    requires i < PatternCount
    ensures LitCount(i, k * Period(i), Period(i)) == Step(i) - 1
  {
    LitCountShift(i, k, Period(i));
    LitCountPrefix(i, Period(i));
  }

  /** What the seven patterns show in column c, pattern 0 first: the bits a
      camera pixel looking at that column decodes under ideal imaging. */
  function ColumnBits(c: nat): (bits: seq<real>)
    ensures |bits| == PatternCount && IsBinary(bits)
  {
    seq(PatternCount, i requires 0 <= i < PatternCount => Cell(i, c))
  }

  /** The 0/1 value of the lowest bit of k. */
  function LowBit(k: int): real
  {
    if k % 2 == 1 then 1.0 else 0.0
  }

  /** Entry i of the n-bit spelling of k, counted from the most significant
      end, is the lowest bit of k / 2^(n - 1 - i). */
  lemma {:induction false} EncodeBit(k: nat, n: nat, i: nat)
    requires i < n
    ensures Encode(k, n)[i] == LowBit(k / Pow2(n - 1 - i))
  {
    if i < n - 1 {
      EncodeBit(k / 2, n - 1, i);
      assert Encode(k, n)[i] == Encode(k / 2, n - 1)[i];
      HalveTwice(k, Pow2(n - 2 - i));
      assert Pow2(n - 1 - i) == 2 * Pow2(n - 2 - i);
    }
  }

  /** Pattern i is lit in a column c that is not a multiple of 16 exactly
      when bit 6 - i of (c - 1) / 8 is set. */
  lemma CellIsBit(i: nat, c: nat)
    requires i < PatternCount && 0 < c && c % 16 != 0
    ensures Cell(i, c) == LowBit((c - 1) / 8 / Pow2(PatternCount - 1 - i))
  {
    var m := Pow2(PatternCount - 1 - i);
    assert Step(i) == 8 * m by {
      assert Pow2(9 - i) == 2 * Pow2(8 - i);
      assert Pow2(8 - i) == 2 * Pow2(7 - i);
      assert Pow2(7 - i) == 2 * m;
    }
    BitOfColumn(c, m);
  }

  /** Away from the multiples of 16, the seven patterns spell (c - 1) / 8:
      the stripes are a plain binary code of the column's group of eight,
      most significant bit in pattern 0. */
  lemma ColumnCode(c: nat)
    requires 0 < c < Rows && c % 16 != 0
    ensures ColumnBits(c) == Encode((c - 1) / 8, PatternCount)
  {
    var k := (c - 1) / 8;
    forall i | 0 <= i < PatternCount
      ensures ColumnBits(c)[i] == Encode(k, PatternCount)[i]
    {
      CellIsBit(i, c);
      EncodeBit(k, PatternCount, i);
    }
  }

  /** Decoding the bits of a column in 9..1016 that is not a multiple of 16
      gives back its group of eight, mapped onto (-1, 1) as 2k/127 - 1. */
  lemma PatternColumnDecodes(c: nat)
    requires 9 <= c <= 1016 && c % 16 != 0
    ensures ProjectorXIntended(ColumnBits(c)) == 2.0 * (((c - 1) / 8) as real) / 127.0 - 1.0
  {
    var k := (c - 1) / 8;
    ColumnCode(c);
    assert Pow2(Frames) == 128;
    IntendedColumnOfCode(k);
  }

  // Integer division facts the proofs above use.

  lemma MulAtLeast(p: int, n: int)
    requires p > 0 && n >= 1
    ensures p * n >= p
  {
  }

  lemma Distrib(p: int, a: int, b: int)
    ensures p * a - p * b == p * (a - b)
  {
  }

  /** Quotient and remainder are the only q and r with x == p * q + r and
      0 <= r < p. */
  lemma DivModUnique(x: int, p: int, q: int, r: int)
    requires p > 0 && 0 <= r < p && x == p * q + r
    ensures x / p == q && x % p == r
  {
    var q2 := x / p;
    var r2 := x % p;
    assert x == p * q2 + r2;
    Distrib(p, q, q2);
    if q > q2 {
      MulAtLeast(p, q - q2);
    } else if q < q2 {
      MulAtLeast(p, q2 - q);
      Distrib(p, q2, q);
    }
  }

  lemma HalveTwice(k: nat, q: nat)
    requires q > 0
    ensures k / 2 / q == k / (2 * q)
  {
    var a := k / 2 / q;
    var r := k / 2 % q;
    assert k / 2 == q * a + r;
    assert k == (2 * q) * a + (2 * r + k % 2);
    DivModUnique(k, 2 * q, a, 2 * r + k % 2);
  }

  /** Column c, less one, split by the period 16m of a pattern with stripe
      width 8m: h whole periods, then a stripe-width shift selected by bit
      0 of (c - 1) / 8 / m, then an offset w within the stripe. */
  lemma ColumnSplit(c: nat, m: nat) returns (h: nat, w: nat)
    requires m >= 1 && 0 < c
    ensures c == (16 * m) * h + (8 * m) * (((c - 1) / 8 / m) % 2) + w + 1 && w < 8 * m
  {
    var d := c - 1;
    var k := d / 8;
    var t := k / m;
    var u := k % m;
    h := t / 2;
    var b := t % 2;
    var s := 8 * m;
    w := 8 * u + d % 8;
    assert k == m * t + u;
    assert s * t == s * (2 * h) + s * b;
    assert s * (2 * h) == (16 * m) * h;
  }

  /** For a stripe width 8m and a column that is not a multiple of 16,
      the strict comparison of the offset with the stripe width reads off
      bit 0 of (c - 1) / 8 / m. */
  lemma BitOfColumn(c: nat, m: nat)
    requires m >= 1 && 0 < c && c % 16 != 0
    ensures (c % (16 * m) > 8 * m) <==> ((c - 1) / 8 / m) % 2 == 1
  {
    var h, w := ColumnSplit(c, m);
    var p := 16 * m;
    var s := 8 * m;
    if ((c - 1) / 8 / m) % 2 == 1 {
      if w + 1 == s {
        assert c == 16 * (m * (h + 1));
        DivModUnique(c, 16, m * (h + 1), 0);
        assert false;
      }
      DivModUnique(c, p, h, s + w + 1);
    } else {
      DivModUnique(c, p, h, w + 1);
    }
  }

  /** The script: a zero-filled array of seven 1024 x 1024 images, whose
      slice i is then overwritten with pattern i. Every row of a slice is
      the same, since a cell depends on its column only. */
  method CreatePatterns() returns (data: array3<real>)
    ensures fresh(data)
    ensures data.Length0 == PatternCount && data.Length1 == Rows && data.Length2 == Rows
    ensures forall i, r, c :: 0 <= i < PatternCount && 0 <= r < Rows && 0 <= c < Rows ==>
      data[i, r, c] == Cell(i, c)
  {
    data := new real[PatternCount, Rows, Rows]((_, _, _) => 0.0);
    for i := 0 to PatternCount
      invariant forall i', r, c :: 0 <= i' < i && 0 <= r < Rows && 0 <= c < Rows ==>
        data[i', r, c] == Cell(i', c)
    {
      forall r, c | 0 <= r < Rows && 0 <= c < Rows {
        data[i, r, c] := Cell(i, c);
      }
    }
  }
}
