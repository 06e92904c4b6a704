module Collections {
  function Elements<T>(s: seq<T>): set<T> { set x | x in s }

  function Min(a: nat, b: nat): nat { if a < b then a else b }

  lemma SubsetIsSmaller<T>(b: set<T>, a: set<T>)
    requires b <= a
    ensures |b| <= |a|
  {
    assert a == b + (a - b);
  }
}
