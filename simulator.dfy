/** The checkpoint index of the simulation driver. */
module Simulator {
  import opened Lattice

  /** `create_index(T)`: start at 0 and append, for each timestep increment
      in turn, the previous entry plus that increment. Entry i is the total of
      the first i increments. */
  method CreateIndex(T: seq<int>) returns (index: seq<int>)
    ensures |index| == |T| + 1 && index[0] == 0
    ensures forall i :: 0 <= i < |T| ==> index[i + 1] == index[i] + T[i]
    ensures forall i :: 0 <= i <= |T| ==> index[i] == Sum(T[..i])
    ensures index[|T|] == Sum(T)
    ensures NonNegative(T) ==> forall i, j :: 0 <= i <= j <= |T| ==> index[i] <= index[j]
  {
    index := [0];
    var tLoc := 0;
    while tLoc < |T|
      invariant 0 <= tLoc <= |T| && |index| == tLoc + 1
      invariant forall i :: 0 <= i <= tLoc ==> index[i] == Sum(T[..i])
    {
      assert T[..tLoc + 1][..tLoc] == T[..tLoc];
      index := index + [index[tLoc] + T[tLoc]];
      tLoc := tLoc + 1;
    }
    assert T[..|T|] == T;
    forall i | 0 <= i < |T| ensures index[i + 1] == index[i] + T[i] {
      assert T[..i + 1][..i] == T[..i];
    }
    if NonNegative(T) {
      PrefixSumsIncrease(T);
    }
  }

  /** With non-negative increments the prefix totals never decrease. */
  lemma {:induction false} PrefixSumsIncrease(T: seq<int>)
    requires NonNegative(T)
    ensures forall i, j :: 0 <= i <= j <= |T| ==> Sum(T[..i]) <= Sum(T[..j])
  {
    if T != [] {
      var n := |T| - 1;
      PrefixSumsIncrease(T[..n]);
      forall i | 0 <= i <= n ensures T[..n][..i] == T[..i] && Sum(T[..i]) <= Sum(T) {
        assert T[..n][..i] == T[..i];
        assert T[..n + 1] == T;
        assert Sum(T[..n][..i]) <= Sum(T[..n][..n]);
        assert T[..n][..n] == T[..n];
      }
      assert T[..|T|] == T;
    }
  }
}
