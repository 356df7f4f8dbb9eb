/** The Fisher-Yates shuffle of script.js. */
module Shuffling {

  /** Returns a rearrangement of `arr`. The source swaps the cells of a copy of
      its argument, so the argument itself is never changed; here `arr` is a
      value and the copy is a fresh array. The source draws each swap partner
      `j` uniformly from [0, i]; the model lets `j` be any index in that range. */
  method Shuffle<T>(arr: seq<T>) returns (r: seq<T>)
    ensures |r| == |arr|
    ensures multiset(r) == multiset(arr)
  {
    var a := new T[|arr|](k requires 0 <= k < |arr| => arr[k]);
    assert a[..] == arr;
    var i := a.Length - 1;
    while i > 0
      invariant i < a.Length
      invariant multiset(a[..]) == multiset(arr)
    {
      var j :| 0 <= j <= i;
      a[i], a[j] := a[j], a[i];
      i := i - 1;
    }
    r := a[..];
  }
}
