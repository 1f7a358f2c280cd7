/**
 * The integer part of RandomnessTester.mono_bit_test (RandomnessTests.py): the
 * Frequency (Monobit) test of NIST SP 800-22, section 2.1, up to its p-value.
 */
module RandomnessTests {
  import opened Strings
  import opened Symbols

  /** The ±1 sum of a column: +1 for every character other than '0', -1 for every '0'. */
  function MonobitSum(s: string): (sum: int)
    ensures -|s| <= sum <= |s|
    ensures (|s| - sum) % 2 == 0
  {
    (|s| - Zeros(s)) - Zeros(s)
  }

  /** The counting loop: `count` goes down on a '0' and up on anything else. */
  method CountSum(s: string) returns (count: int)
    ensures count == MonobitSum(s)
  {
    count := 0;
    for i := 0 to |s|
      invariant count == MonobitSum(s[..i])
    {
      ZerosSnoc(s, i);
      if s[i] == '0' {
        count := count - 1;
      } else {
        count := count + 1;
      }
    }
    assert s[..|s|] == s;
  }

  /** A string of '1's sums to its length; a string of '0's to minus its length. */
  lemma MonobitSumUniform(s: string)
    ensures (forall i :: 0 <= i < |s| ==> s[i] == '1') ==> MonobitSum(s) == |s|
    ensures (forall i :: 0 <= i < |s| ==> s[i] == '0') ==> MonobitSum(s) == -|s|
  {
    ZerosUniform(s);
  }

  /** Flipping a bit string turns its zeros into ones and back. */
  lemma {:induction false} ZerosFlipBits(s: string)
    requires IsBinary(s)
    ensures Zeros(FlipBits(s)) == |s| - Zeros(s)
  {
    if s != [] {
      var init := s[..|s| - 1];
      assert IsBinary(init) by {
        forall i | 0 <= i < |init| ensures init[i] == '0' || init[i] == '1' { assert init[i] == s[i]; }
      }
      ZerosFlipBits(init);
      var f := FlipBits(s);
      assert f[..|f| - 1] == FlipBits(init);
    }
  }

  /** Flipping every bit of a bit string negates its sum. */
  lemma MonobitSumFlip(s: string)
    requires IsBinary(s)
    ensures MonobitSum(FlipBits(s)) == -MonobitSum(s)
  {
    ZerosFlipBits(s);
  }

  function Abs(x: int): nat {
    if x < 0 then -x else x
  }

  /** What the test prints for one column, or the division by zero an empty column raises. */
  datatype Verdict = Pass | Fail | DivisionByZero

  /** The significance level the test compares the p-value with. */
  const Significance: real := 0.01

  /**
   * The verdict on one column. `pValue` stands for erfc(|count| / sqrt(n) / sqrt(2)),
   * which depends only on the absolute sum and the length; it is floating point and
   * left opaque. An empty column divides by sqrt(0).
   */
  function ColumnVerdict(s: string, pValue: (nat, nat) -> real): Verdict {
    if |s| == 0 then DivisionByZero
    else if pValue(Abs(MonobitSum(s)), |s|) < Significance then Fail
    else Pass
  }

  /** Complementing a bit column never changes its verdict: the sum only changes sign. */
  lemma FlipKeepsVerdict(s: string, pValue: (nat, nat) -> real)
    requires IsBinary(s)
    ensures ColumnVerdict(FlipBits(s), pValue) == ColumnVerdict(s, pValue)
  {
    MonobitSumFlip(s);
  }

  /**
   * mono_bit_test over all columns in order. Each column is FAIL exactly when its
   * p-value is below the significance level and PASS otherwise; an empty column
   * raises, which ends the test, so the verdicts stop there.
   */
  method MonoBitTest(columns: seq<string>, binData: map<string, string>, pValue: (nat, nat) -> real)
    returns (verdicts: seq<Verdict>)
    requires forall c :: c in columns ==> c in binData
    ensures |verdicts| <= |columns|
    ensures forall i :: 0 <= i < |verdicts| ==> verdicts[i] == ColumnVerdict(binData[columns[i]], pValue)
    ensures forall i :: 0 <= i < |verdicts| ==>
      (verdicts[i] == Fail <==> |binData[columns[i]]| > 0 && pValue(Abs(MonobitSum(binData[columns[i]])), |binData[columns[i]]|) < Significance)
    ensures forall i :: 0 <= i < |verdicts| - 1 ==> verdicts[i] != DivisionByZero
    ensures |verdicts| < |columns| ==> |verdicts| > 0 && verdicts[|verdicts| - 1] == DivisionByZero
  {
    verdicts := [];
    var j := 0;
    while j < |columns|
      invariant 0 <= j <= |columns| && |verdicts| == j
      invariant forall i :: 0 <= i < j ==> verdicts[i] == ColumnVerdict(binData[columns[i]], pValue)
      invariant forall i :: 0 <= i < j ==> verdicts[i] != DivisionByZero
    {
      var strData := binData[columns[j]];
      var count := CountSum(strData);
      if |strData| == 0 {
        verdicts := verdicts + [DivisionByZero];
        return;
      }
      var pVal := pValue(Abs(count), |strData|);
      verdicts := verdicts + [if pVal < Significance then Fail else Pass];
      j := j + 1;
    }
  }
}
