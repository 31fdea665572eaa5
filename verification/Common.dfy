/** Small helpers shared by the other modules (peer/common.h). */
module Common {
  datatype Option<T> = None | Some(value: T)

  function Min(a: int, b: int): int {
    if a < b then a else b
  }

  lemma SubsetSize<T>(a: set<T>, b: set<T>)
    requires a <= b
    ensures |a| <= |b| && (|a| == |b| <==> a == b)
  {
    var more := b - a;
    assert b == a + more;
    assert |b| == |a| + |more|;
    if |more| == 0 {
      assert more == {};
    }
  }
}
