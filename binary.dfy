/** Bit-plane codes. A code is a sequence of 0.0/1.0 values read most
    significant bit first; `Code` gives the integer it spells and `Encode`
    spells an integer back out. */
module Binary {

  function Pow2(n: nat): (p: nat)
    ensures p >= 1
  {
    if n == 0 then 1 else 2 * Pow2(n - 1)
  }

  /** Every entry is 0.0 or 1.0, as produced by casting a comparison to float. */
  predicate IsBinary(bits: seq<real>)
  {
    forall k :: 0 <= k < |bits| ==> bits[k] == 0.0 || bits[k] == 1.0
  }

  function BitValue(b: real): nat
  {
    if b == 1.0 then 1 else 0
  }

  /** The integer spelled by `bits`, first entry most significant. */
  function Code(bits: seq<real>): (k: nat)
    ensures k < Pow2(|bits|)
  {
    if |bits| == 0 then 0 else 2 * Code(bits[..|bits| - 1]) + BitValue(bits[|bits| - 1])
  }

  /** The `n` low bits of `k`, most significant first. */
  function Encode(k: nat, n: nat): (bits: seq<real>)
    ensures |bits| == n && IsBinary(bits)
  {
    if n == 0 then [] else Encode(k / 2, n - 1) + [if k % 2 == 1 then 1.0 else 0.0]
  }

  /** Spelling out a code that fits in `n` bits and reading it back gives it again. */
  lemma {:induction false} CodeOfEncode(k: nat, n: nat)
    requires k < Pow2(n)
    ensures Code(Encode(k, n)) == k
  {
    if n > 0 {
      var e := Encode(k, n);
      assert e[..n - 1] == Encode(k / 2, n - 1);
      assert Pow2(n) == 2 * Pow2(n - 1);
      CodeOfEncode(k / 2, n - 1);
      assert BitValue(e[n - 1]) == k % 2;
    }
  }

  /** Reading a 0/1 sequence and spelling the result back gives the sequence. */
  lemma {:induction false} EncodeOfCode(bits: seq<real>)
    requires IsBinary(bits)
    ensures Encode(Code(bits), |bits|) == bits
  {
    if |bits| > 0 {
      var n := |bits|;
      var init := bits[..n - 1];
      assert IsBinary(init);
      EncodeOfCode(init);
      var k := Code(bits);
      assert k / 2 == Code(init) && k % 2 == BitValue(bits[n - 1]);
      assert bits == init + [bits[n - 1]];
    }
  }

  /** Distinct 0/1 sequences of one length spell distinct integers. */
  lemma CodeInjective(a: seq<real>, b: seq<real>)
    requires IsBinary(a) && IsBinary(b) && |a| == |b|
    requires Code(a) == Code(b)
    ensures a == b
  {
    EncodeOfCode(a);
    EncodeOfCode(b);
  }

  /** Powers of two multiply by adding exponents. */
  lemma {:induction false} Pow2Add(a: nat, b: nat)
    ensures Pow2(a + b) == Pow2(a) * Pow2(b)
  {
    if a > 0 {
      Pow2Add(a - 1, b);
      assert Pow2(a + b) == 2 * Pow2(a - 1 + b);
    }
  }
}
