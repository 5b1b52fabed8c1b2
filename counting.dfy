/** Sizes of finite sets under the one-element changes the tables make. */
module Counting {

  /** Two sets that agree except on `x` differ in size by what `x` adds to each. */
  lemma CardAfterSwap<T>(before: set<T>, after: set<T>, x: T)
    requires before - {x} == after - {x}
    ensures |after| == |before| - (if x in before then 1 else 0) + (if x in after then 1 else 0)
  {
    var rest := before - {x};
    if x in before {
      assert before == rest + {x};
    }
    if x in after {
      assert after == rest + {x};
    } else {
      assert after == rest;
    }
  }

  /** A set of at most one element that holds `x` is `{x}`. */
  lemma OnlyElement<T>(s: set<T>, x: T)
    requires x in s && |s| <= 1
    ensures s == {x}
  {
    var rest := s - {x};
    assert s == rest + {x};
  }
}
