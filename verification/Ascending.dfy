/** The numbers of a range that have a property, in order. */
module Ascending {

  ghost function Select(lo: int, hi: int, p: int -> bool): seq<int>
    decreases hi - lo
  {
    if lo >= hi then [] else (if p(lo) then [lo] else []) + Select(lo + 1, hi, p)
  }

  /** In order, and exactly the numbers with the property. */
  lemma {:induction false} SelectLaw(lo: int, hi: int, p: int -> bool)
    ensures forall n :: n in Select(lo, hi, p) <==> lo <= n < hi && p(n)
    ensures forall i, j | 0 <= i < j < |Select(lo, hi, p)| :: Select(lo, hi, p)[i] < Select(lo, hi, p)[j]
    decreases hi - lo
  {
    if lo < hi {
      SelectLaw(lo + 1, hi, p);
      var rest := Select(lo + 1, hi, p);
      assert forall i | 0 <= i < |rest| :: rest[i] in rest;
    }
  }

  lemma {:induction false} SelectSame(lo: int, hi: int, p: int -> bool, q: int -> bool)
    requires forall n | lo <= n < hi :: p(n) == q(n)
    ensures Select(lo, hi, p) == Select(lo, hi, q)
    decreases hi - lo
  {
    if lo < hi {
      SelectSame(lo + 1, hi, p, q);
    }
  }

  /** The first selected number is the least one. */
  lemma {:induction false} SelectHead(lo: int, hi: int, p: int -> bool)
    ensures var l := Select(lo, hi, p);
            if l == [] then forall n | lo <= n < hi :: !p(n)
            else lo <= l[0] < hi && p(l[0]) && forall n | lo <= n < l[0] :: !p(n)
    decreases hi - lo
  {
    if lo < hi && !p(lo) {
      SelectHead(lo + 1, hi, p);
    }
  }

  /** Losing just the first selected number loses just the head. */
  lemma {:induction false} SelectTail(lo: int, hi: int, p: int -> bool, q: int -> bool)
    requires Select(lo, hi, p) != []
    requires forall n | lo <= n < hi :: q(n) == (p(n) && n != Select(lo, hi, p)[0])
    ensures Select(lo, hi, q) == Select(lo, hi, p)[1..]
    decreases hi - lo
  {
    if p(lo) {
      SelectSame(lo + 1, hi, p, q);
    } else {
      SelectTail(lo + 1, hi, p, q);
    }
  }

  lemma {:induction false} SelectAll(lo: int, hi: int, p: int -> bool)
    requires lo <= hi && forall n | lo <= n < hi :: p(n)
    ensures |Select(lo, hi, p)| == hi - lo
    decreases hi - lo
  {
    if lo < hi {
      SelectAll(lo + 1, hi, p);
    }
  }
}
