/** Abstract bit sequences: what the packed mask of a node means, and the two searches over it. */
module Bits {

  /** The least index holding v, or |bits| when v does not occur. */
  function FirstIndex(bits: seq<bool>, v: bool): (r: nat)
    ensures r <= |bits|
    ensures r < |bits| ==> bits[r] == v
    ensures forall j :: 0 <= j < r ==> bits[j] != v
  {
    if bits == [] || bits[0] == v then 0 else 1 + FirstIndex(bits[1..], v)
  }

  /** The greatest index holding v, or -1 when v does not occur. */
  function LastIndex(bits: seq<bool>, v: bool): (r: int)
    ensures -1 <= r < |bits|
    ensures 0 <= r ==> bits[r] == v
    ensures forall j :: r < j < |bits| ==> bits[j] != v
  {
    if bits == [] then -1
    else if bits[|bits| - 1] == v then |bits| - 1
    else LastIndex(bits[..|bits| - 1], v)
  }

  /** How many indices hold v. */
  function Count(bits: seq<bool>, v: bool): (r: nat)
    ensures r <= |bits|
  {
    if bits == [] then 0
    else Count(bits[..|bits| - 1], v) + if bits[|bits| - 1] == v then 1 else 0
  }

  lemma {:induction false} CountUpdate(bits: seq<bool>, i: nat, v: bool)
    requires i < |bits| && bits[i] != v
    ensures Count(bits[i := v], v) == Count(bits, v) + 1
    ensures Count(bits[i := v], !v) == Count(bits, !v) - 1
  {
    var n := |bits| - 1;
    if i == n {
      assert bits[i := v][..n] == bits[..n];
    } else {
      assert bits[i := v][..n] == bits[..n][i := v];
      CountUpdate(bits[..n], i, v);
    }
  }

  /** A count is zero exactly when the value is absent, and full exactly when nothing else occurs. */
  lemma {:induction false} CountExtremes(bits: seq<bool>, v: bool)
    ensures Count(bits, v) == 0 <==> forall j :: 0 <= j < |bits| ==> bits[j] != v
    ensures Count(bits, v) == |bits| <==> forall j :: 0 <= j < |bits| ==> bits[j] == v
  {
    if bits != [] {
      var n := |bits| - 1;
      CountExtremes(bits[..n], v);
      assert forall j :: 0 <= j < n ==> bits[..n][j] == bits[j];
      assert bits[n] == v || bits[n] != v;
    }
  }

  /** The v-bits are exactly the first m ones: then m of them are counted. */
  lemma {:induction false} CountPrefix(bits: seq<bool>, m: nat, v: bool)
    requires m <= |bits|
    requires forall j :: 0 <= j < |bits| ==> (bits[j] == v <==> j < m)
    ensures Count(bits, v) == m
  {
    if bits != [] {
      var n := |bits| - 1;
      CountPrefix(bits[..n], if m > n then n else m, v);
    }
  }

  lemma FirstIndexIs(bits: seq<bool>, v: bool, i: nat)
    requires i <= |bits| && (i < |bits| ==> bits[i] == v) && forall j :: 0 <= j < i ==> bits[j] != v
    ensures FirstIndex(bits, v) == i
  {}

  lemma LastIndexIs(bits: seq<bool>, v: bool, i: int)
    requires -1 <= i < |bits| && (i >= 0 ==> bits[i] == v) && forall j :: i < j < |bits| ==> bits[j] != v
    ensures LastIndex(bits, v) == i
  {}
}
