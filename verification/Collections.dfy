/** Facts about sets and sequences that several models share. */
module Collections {
  lemma {:induction false} SubsetSize<T>(small: set<T>, large: set<T>)
    requires small <= large
    ensures |small| <= |large|
    ensures small != large ==> |small| < |large|
  {
    assert large == small + (large - small);
  }

  lemma {:induction false} DistinctSize<T>(items: seq<T>, all: set<T>)
    requires forall i :: 0 <= i < |items| ==> items[i] in all
    requires forall i, j :: 0 <= i < j < |items| ==> items[i] != items[j]
    ensures |items| <= |all|
  {
    if items != [] {
      var last := items[|items| - 1];
      DistinctSize(items[..|items| - 1], all - {last});
    }
  }

  lemma Regroup<T>(front: seq<T>, x: T, back: seq<T>)
    ensures front + ([x] + back) == (front + [x]) + back
  {
  }

  lemma SameHeadAndTail<T>(a: T, x: seq<T>, b: T, y: seq<T>)
    ensures [a] + x == [b] + y <==> a == b && x == y
  {
    assert ([a] + x)[0] == a && ([a] + x)[1..] == x;
    assert ([b] + y)[0] == b && ([b] + y)[1..] == y;
  }
}
