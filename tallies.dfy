/** mono_bit_test in Main.py: separate counts of zeros and ones for every column. */
module Tallies {
  import opened Strings
  import opened RandomnessTests

  /**
   * For each column in order, the pair (count_zero, count_ones), both counters
   * starting from zero for every column. Every character that is not '0' counts
   * as a one, including characters that are not bits.
   */
  method MonoBitTallies(columns: seq<string>, binData: map<string, string>) returns (tallies: seq<(nat, nat)>)
    requires forall c :: c in columns ==> c in binData
    ensures |tallies| == |columns|
    ensures forall i :: 0 <= i < |columns| ==>
      tallies[i].0 == Zeros(binData[columns[i]]) && tallies[i].0 + tallies[i].1 == |binData[columns[i]]|
    ensures forall i :: 0 <= i < |columns| ==> tallies[i].1 as int - tallies[i].0 as int == MonobitSum(binData[columns[i]])
  {
    tallies := [];
    for j := 0 to |columns|
      invariant |tallies| == j
      invariant forall i :: 0 <= i < j ==>
        tallies[i].0 == Zeros(binData[columns[i]]) && tallies[i].0 + tallies[i].1 == |binData[columns[i]]|
    {
      var strData := binData[columns[j]];
      var countZero, countOnes := 0, 0;
      for k := 0 to |strData|
        invariant countZero == Zeros(strData[..k]) && countZero + countOnes == k
      {
        ZerosSnoc(strData, k);
        if strData[k] == '0' {
          countZero := countZero + 1;
        } else {
          countOnes := countOnes + 1;
        }
      }
      assert strData[..|strData|] == strData;
      tallies := tallies + [(countZero, countOnes)];
    }
  }
}
