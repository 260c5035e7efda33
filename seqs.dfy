/** The three array searches the handlers are written with: Array.prototype.findIndex,
    Array.prototype.find and Array.prototype.filter, over sequences and a total predicate.
    Filter is related to an independent definition of "the elements satisfying p, in order". */
module Seqs {

  datatype Option<T> = None | Some(value: T)

  /** Position of the first element satisfying `p`, or -1 when no element does (findIndex). */
  function FindIndex<T>(s: seq<T>, p: T -> bool): (k: int)
    ensures -1 <= k < |s|
    ensures k == -1 <==> forall j :: 0 <= j < |s| ==> !p(s[j])
    ensures 0 <= k ==> p(s[k]) && forall j :: 0 <= j < k ==> !p(s[j])
  {
    if s == [] then -1
    else if p(s[0]) then 0
    else
      var k := FindIndex(s[1..], p);
      if k == -1 then -1 else k + 1
  }

  /** The first element satisfying `p`, if any (find). */
  function Find<T>(s: seq<T>, p: T -> bool): (r: Option<T>)
    ensures r.None? <==> forall j :: 0 <= j < |s| ==> !p(s[j])
    ensures r.Some? ==> exists k :: 0 <= k < |s| && s[k] == r.value && p(s[k]) && forall j :: 0 <= j < k ==> !p(s[j])
  {
    var k := FindIndex(s, p);
    if k == -1 then None else Some(s[k])
  }

  /** The elements of `s` that satisfy `p`, in their order in `s` (filter). */
  function Filter<T>(s: seq<T>, p: T -> bool): (r: seq<T>)
    ensures |r| <= |s|
    ensures forall k :: 0 <= k < |r| ==> p(r[k])
    ensures r == [] <==> forall j :: 0 <= j < |s| ==> !p(s[j])
  {
    if s == [] then []
    else if p(s[0]) then [s[0]] + Filter(s[1..], p)
    else Filter(s[1..], p)
  }

  /** `r` holds the elements of `s` at the positions `idx`. */
  ghost predicate Picks<T>(s: seq<T>, r: seq<T>, idx: seq<int>)
  {
    |idx| == |r| && forall k :: 0 <= k < |idx| ==> 0 <= idx[k] < |s| && r[k] == s[idx[k]]
  }

  ghost predicate Increasing(idx: seq<int>)
  {
    forall k, l :: 0 <= k < l < |idx| ==> idx[k] < idx[l]
  }

  /** The positions in `idx` are exactly those of `s` whose elements satisfy `p`. */
  ghost predicate Covers<T>(s: seq<T>, p: T -> bool, idx: seq<int>)
  {
    forall j :: 0 <= j < |s| ==> (p(s[j]) <==> j in idx)
  }

  /** `idx` lists, strictly increasing, the positions of `s` whose elements satisfy `p`,
      and `r` holds the elements at those positions. */
  ghost predicate Selects<T>(s: seq<T>, p: T -> bool, r: seq<T>, idx: seq<int>)
  {
    Picks(s, r, idx) && Increasing(idx) && Covers(s, p, idx)
  }

  /** `r` is exactly the subsequence of `s` made of the elements satisfying `p`. */
  ghost predicate IsSelection<T>(s: seq<T>, p: T -> bool, r: seq<T>)
  {
    exists idx :: Selects(s, p, r, idx)
  }

  /** Every position moved one place to the right. */
  function Shift(idx: seq<int>): (r: seq<int>)
    ensures |r| == |idx|
    ensures forall k :: 0 <= k < |idx| ==> r[k] == idx[k] + 1
  {
    seq(|idx|, k requires 0 <= k < |idx| => idx[k] + 1)
  }

  /** The positions Filter keeps. */
  function FilterIndices<T>(s: seq<T>, p: T -> bool): (idx: seq<int>)
  {
    if s == [] then []
    else if p(s[0]) then [0] + Shift(FilterIndices(s[1..], p))
    else Shift(FilterIndices(s[1..], p))
  }

  /** A position is in the shifted list exactly when its predecessor is in the original. */
  lemma ShiftIn(idx: seq<int>, j: int)
    ensures j in Shift(idx) <==> j - 1 in idx
  {
    var shifted := Shift(idx);
    if j - 1 in idx {
      var k :| 0 <= k < |idx| && idx[k] == j - 1;
      assert shifted[k] == j;
    }
    if j in shifted {
      var k :| 0 <= k < |shifted| && shifted[k] == j;
      assert idx[k] == j - 1;
    }
  }

  /** Picking from `t` at `rest` is picking from `[x] + t` at the shifted positions. */
  lemma PicksShift<T>(x: T, t: seq<T>, r: seq<T>, rest: seq<int>)
    requires Picks(t, r, rest)
    ensures Picks([x] + t, r, Shift(rest))
    ensures Picks([x] + t, [x] + r, [0] + Shift(rest))
  {
    var s := [x] + t;
    var shifted := Shift(rest);
    forall k | 0 <= k < |rest| ensures 0 < shifted[k] < |s| && r[k] == s[shifted[k]] {
      assert s[rest[k] + 1] == t[rest[k]];
    }
    var idx := [0] + shifted;
    var res := [x] + r;
    forall k | 0 < k < |idx| ensures 0 < idx[k] < |s| && res[k] == s[idx[k]] {
      assert idx[k] == shifted[k - 1] && res[k] == r[k - 1];
    }
  }

  /** Shifting keeps positions increasing, and a leading 0 goes before them, given that
      the original positions are non-negative. */
  lemma IncreasingShift(rest: seq<int>)
    requires Increasing(rest)
    requires forall k :: 0 <= k < |rest| ==> 0 <= rest[k]
    ensures Increasing(Shift(rest))
    ensures Increasing([0] + Shift(rest))
  {
    var shifted := Shift(rest);
    var idx := [0] + shifted;
    forall k, l | 0 <= k < l < |idx| ensures idx[k] < idx[l] {
      assert idx[l] == shifted[l - 1];
      if k > 0 {
        assert idx[k] == shifted[k - 1];
      }
    }
  }

  /** The positions of `p`-elements in `[x] + t` are those in `t`, shifted, plus 0 when
      `x` satisfies `p`. */
  lemma CoversShift<T>(x: T, t: seq<T>, p: T -> bool, rest: seq<int>)
    requires Covers(t, p, rest)
    requires forall k :: 0 <= k < |rest| ==> 0 <= rest[k]
    ensures Covers([x] + t, p, (if p(x) then [0] else []) + Shift(rest))
  {
    var s := [x] + t;
    var shifted := Shift(rest);
    var idx := (if p(x) then [0] else []) + shifted;
    forall j | 0 <= j < |s| ensures p(s[j]) <==> j in idx {
      ShiftIn(rest, j);
      assert j in idx <==> (j == 0 && p(x)) || j in shifted;
      if j > 0 {
        assert s[j] == t[j - 1];
      } else {
        assert -1 !in rest;
      }
    }
  }

  /** A selection from `t` extends to a selection from `[x] + t`. */
  lemma SelectsCons<T>(x: T, t: seq<T>, p: T -> bool, r: seq<T>, rest: seq<int>)
    requires Selects(t, p, r, rest)
    ensures Selects([x] + t, p, (if p(x) then [x] else []) + r, (if p(x) then [0] else []) + Shift(rest))
  {
    PicksShift(x, t, r, rest);
    IncreasingShift(rest);
    CoversShift(x, t, p, rest);
    if !p(x) {
      assert (if p(x) then [x] else []) + r == r;
      assert (if p(x) then [0] else []) + Shift(rest) == Shift(rest);
    }
  }

  /** Filter keeps exactly the elements satisfying `p`, in order; FilterIndices says where
      they were. */
  lemma {:induction false} FilterSelects<T>(s: seq<T>, p: T -> bool)
    ensures Selects(s, p, Filter(s, p), FilterIndices(s, p))
  {
    if s != [] {
      var x, t := s[0], s[1..];
      assert s == [x] + t;
      var r, rest := Filter(t, p), FilterIndices(t, p);
      FilterSelects(t, p);
      SelectsCons(x, t, p, r, rest);
      if p(x) {
        assert Filter(s, p) == [x] + r;
        assert FilterIndices(s, p) == [0] + Shift(rest);
      } else {
        assert Filter(s, p) == r;
        assert FilterIndices(s, p) == Shift(rest);
      }
    }
  }

  /** Filter returns exactly the subsequence of elements satisfying `p`. */
  lemma FilterIsSelection<T>(s: seq<T>, p: T -> bool)
    ensures IsSelection(s, p, Filter(s, p))
  {
    FilterSelects(s, p);
  }

  /** Filter distributes over concatenation: the kept elements of `a` come before those of `b`. */
  lemma {:induction false} FilterAppend<T>(a: seq<T>, b: seq<T>, p: T -> bool)
    ensures Filter(a + b, p) == Filter(a, p) + Filter(b, p)
  {
    if a == [] {
      assert a + b == b;
    } else {
      assert (a + b)[1..] == a[1..] + b;
      FilterAppend(a[1..], b, p);
    }
  }

  /** An element that fails `p` can be dropped before filtering. */
  lemma FilterSkip<T>(a: seq<T>, x: T, b: seq<T>, p: T -> bool)
    requires !p(x)
    ensures Filter(a + [x] + b, p) == Filter(a + b, p)
  {
    FilterAppend(a + [x], b, p);
    FilterAppend(a, [x], p);
    FilterAppend(a, b, p);
    assert Filter([x], p) == [];
  }

  /** Removing the element at position `k`, which fails `p`, does not change the filter. */
  lemma FilterSkipAt<T>(s: seq<T>, k: int, p: T -> bool)
    requires 0 <= k < |s| && !p(s[k])
    ensures Filter(s[..k] + s[k + 1..], p) == Filter(s, p)
  {
    assert s == s[..k] + [s[k]] + s[k + 1..];
    FilterSkip(s[..k], s[k], s[k + 1..], p);
  }

  /** Filtering with two predicates that agree everywhere gives the same result. */
  lemma {:induction false} FilterCongruent<T>(s: seq<T>, p: T -> bool, q: T -> bool)
    requires forall x :: p(x) == q(x)
    ensures Filter(s, p) == Filter(s, q)
  {
    if s != [] {
      FilterCongruent(s[1..], p, q);
    }
  }

  /** When every element satisfies `p`, Filter returns the whole sequence. */
  lemma {:induction false} FilterAll<T>(s: seq<T>, p: T -> bool)
    requires forall j :: 0 <= j < |s| ==> p(s[j])
    ensures Filter(s, p) == s
  {
    if s != [] {
      FilterAll(s[1..], p);
    }
  }
}
