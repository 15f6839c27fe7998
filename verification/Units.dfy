/** Counting disk units: the per-unit model that the summarised forms are compared with. */
module Units {
  /** Number of units of S in [lo, hi). */
  ghost function Count(S: iset<int>, lo: int, hi: int): nat
    decreases hi - lo
  {
    if hi <= lo then 0 else Count(S, lo, hi - 1) + if hi - 1 in S then 1 else 0
  }

  predicate Between(lo: int, u: int, hi: int) {
    lo <= u < hi
  }

  ghost function Interval(lo: int, hi: int): iset<int> {
    iset u: int | Between(lo, u, hi)
  }

  lemma {:induction false} CountSplit(S: iset<int>, lo: int, mid: int, hi: int)
    requires lo <= mid <= hi
    ensures Count(S, lo, hi) == Count(S, lo, mid) + Count(S, mid, hi)
    decreases hi - mid
  {
    if mid < hi {
      CountSplit(S, lo, mid, hi - 1);
    }
  }

  lemma {:induction false} CountAgree(S: iset<int>, T: iset<int>, lo: int, hi: int)
    requires forall u :: lo <= u < hi ==> (u in S <==> u in T)
    ensures Count(S, lo, hi) == Count(T, lo, hi)
    decreases hi - lo
  {
    if lo < hi {
      CountAgree(S, T, lo, hi - 1);
    }
  }

  lemma {:induction false} CountNone(S: iset<int>, lo: int, hi: int)
    requires forall u :: lo <= u < hi ==> u !in S
    ensures Count(S, lo, hi) == 0
    decreases hi - lo
  {
    if lo < hi {
      CountNone(S, lo, hi - 1);
    }
  }

  lemma {:induction false} CountAll(S: iset<int>, lo: int, hi: int)
    requires lo <= hi
    requires forall u :: lo <= u < hi ==> u in S
    ensures Count(S, lo, hi) == hi - lo
    decreases hi - lo
  {
    if lo < hi {
      CountAll(S, lo, hi - 1);
    }
  }

  lemma {:induction false} CountDisjointUnion(S: iset<int>, T: iset<int>, lo: int, hi: int)
    requires forall u :: lo <= u < hi ==> !(u in S && u in T)
    ensures Count(S + T, lo, hi) == Count(S, lo, hi) + Count(T, lo, hi)
    decreases hi - lo
  {
    if lo < hi {
      CountDisjointUnion(S, T, lo, hi - 1);
    }
  }

  lemma {:induction false} CountCovered(U: iset<int>, S: iset<int>, T: iset<int>, lo: int, hi: int)
    requires forall u :: lo <= u < hi && u in U ==> u in S || u in T
    ensures Count(U, lo, hi) <= Count(S, lo, hi) + Count(T, lo, hi)
    decreases hi - lo
  {
    if lo < hi {
      CountCovered(U, S, T, lo, hi - 1);
    }
  }

  lemma {:induction false} CountBound(S: iset<int>, lo: int, hi: int)
    requires lo <= hi
    ensures Count(S, lo, hi) <= hi - lo
    decreases hi - lo
  {
    if lo < hi {
      CountBound(S, lo, hi - 1);
    }
  }

  /** A unit of S is counted, and a unit outside S is missing from the count. */
  lemma CountMember(S: iset<int>, lo: int, u: int, hi: int)
    requires lo <= u < hi
    ensures u in S ==> Count(S, lo, hi) > 0
    ensures u !in S ==> Count(S, lo, hi) < hi - lo
  {
    CountSplit(S, lo, u, hi);
    CountSplit(S, u, u + 1, hi);
    CountBound(S, lo, u);
    CountBound(S, u + 1, hi);
  }

  /** An interval meets [lo, hi) in the units between the larger start and the smaller end. */
  lemma CountInterval(S: iset<int>, a: int, b: int, lo: int, hi: int)
    requires lo <= hi
    requires forall u :: lo <= u < hi ==> (u in S <==> a <= u < b)
    ensures Count(S, lo, hi) == OverlapLength(a, b, lo, hi)
  {
    var from := if a < lo then lo else if a < hi then a else hi;
    var to := if b < from then from else if b < hi then b else hi;
    CountSplit(S, lo, from, hi);
    CountSplit(S, from, to, hi);
    CountNone(S, lo, from);
    CountAll(S, from, to);
    CountNone(S, to, hi);
  }

  /** Length of [a, b) intersected with [lo, hi). */
  function OverlapLength(a: int, b: int, lo: int, hi: int): nat {
    var from := if a < lo then lo else a;
    var to := if b < hi then b else hi;
    if from < to then to - from else 0
  }
}
