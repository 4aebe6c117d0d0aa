/** Small facts about sequence slices, proved once in a generic setting so
    that proofs about particular element types need not re-derive them. */
module Seqs {

  /** Extending a prefix by one element. */
  lemma TakeSnoc<T>(s: seq<T>, i: nat)
    requires i < |s|
    ensures s[..i + 1] == s[..i] + [s[i]]
  {
    assert forall j :: 0 <= j < i + 1 ==> s[..i + 1][j] == (s[..i] + [s[i]])[j];
  }

  /** Extending a slice by one element. */
  lemma SliceSnoc<T>(s: seq<T>, a: nat, b: nat)
    requires a <= b < |s|
    ensures s[a..b + 1] == s[a..b] + [s[b]]
  {
    assert forall j :: 0 <= j < b + 1 - a ==> s[a..b + 1][j] == (s[a..b] + [s[b]])[j];
  }

  /** Cutting a sequence at two points. */
  lemma SplitThree<T>(s: seq<T>, k: nat, m: nat)
    requires k <= m <= |s|
    ensures s == s[0..k] + s[k..m] + s[m..|s|]
  {
    assert forall j :: 0 <= j < |s| ==> s[j] == (s[0..k] + s[k..m] + s[m..|s|])[j];
  }
}
