/** The stable sort that `Array.prototype.sort` performs, as a functional
    insertion sort over sequences, parameterised by a "goes before or ties" test. */
module Sorting {

  /** `le` is total and transitive, so it orders every sequence. */
  ghost predicate TotalPreorder<T(!new)>(le: (T, T) -> bool) {
    && (forall a, b :: le(a, b) || le(b, a))
    && (forall a, b, c :: le(a, b) && le(b, c) ==> le(a, c))
  }

  predicate SortedBy<T>(s: seq<T>, le: (T, T) -> bool) {
    forall i, j :: 0 <= i < j < |s| ==> le(s[i], s[j])
  }

  /** The elements of `s` that satisfy `p`, in their original order. */
  function Filter<T>(s: seq<T>, p: T -> bool): (r: seq<T>)
    ensures |r| <= |s|
    ensures forall i :: 0 <= i < |r| ==> p(r[i]) && r[i] in s
  {
    if |s| == 0 then []
    else if p(s[0]) then [s[0]] + Filter(s[1..], p)
    else Filter(s[1..], p)
  }

  lemma {:induction false} FilterAppend<T>(a: seq<T>, b: seq<T>, p: T -> bool)
    ensures Filter(a + b, p) == Filter(a, p) + Filter(b, p)
  {
    if |a| > 0 {
      FilterAppend(a[1..], b, p);
      assert (a + b)[1..] == a[1..] + b;
    } else {
      assert a + b == b;
    }
  }

  /** Every element of `s` that satisfies `p` is kept by the filter. */
  lemma {:induction false} FilterComplete<T>(s: seq<T>, p: T -> bool)
    ensures forall i :: 0 <= i < |s| && p(s[i]) ==> s[i] in Filter(s, p)
  {
    if |s| > 0 {
      FilterComplete(s[1..], p);
      forall i | 0 < i < |s| && p(s[i]) ensures s[i] in Filter(s, p) {
        assert s[1..][i - 1] == s[i];
      }
    }
  }

  /** `s.reverse()`. */
  function Reverse<T>(s: seq<T>): (r: seq<T>)
    ensures |r| == |s|
    ensures forall i :: 0 <= i < |s| ==> r[i] == s[|s| - 1 - i]
    ensures multiset(r) == multiset(s)
  {
    if |s| == 0 then [] else
      var r := [s[|s| - 1]] + Reverse(s[..|s| - 1]);
      assert s == s[..|s| - 1] + [s[|s| - 1]];
      r
  }

  /** Read backwards, a sorted sequence is ordered the other way round. */
  lemma ReverseOfSorted<T>(s: seq<T>, le: (T, T) -> bool)
    requires SortedBy(s, le)
    ensures forall i, j :: 0 <= i < j < |s| ==> le(Reverse(s)[j], Reverse(s)[i])
  {
    var r := Reverse(s);
    forall i, j | 0 <= i < j < |s|
      ensures le(r[j], r[i])
    {
      assert r[j] == s[|s| - 1 - j] && r[i] == s[|s| - 1 - i];
    }
  }

  /** Places `x` after every leading element that goes before or ties with it. */
  function Insert<T>(x: T, ys: seq<T>, le: (T, T) -> bool): (r: seq<T>)
    ensures |r| == |ys| + 1
    ensures multiset(r) == multiset(ys) + multiset{x}
  {
    if |ys| == 0 then [x]
    else if le(ys[0], x) then
      assert ys == [ys[0]] + ys[1..];
      [ys[0]] + Insert(x, ys[1..], le)
    else [x] + ys
  }

  /** Sorts `xs`, inserting its elements left to right. */
  function SortBy<T>(xs: seq<T>, le: (T, T) -> bool): (r: seq<T>)
    ensures |r| == |xs|
    ensures multiset(r) == multiset(xs)
  {
    if |xs| == 0 then []
    else
      assert xs == xs[..|xs| - 1] + [xs[|xs| - 1]];
      Insert(xs[|xs| - 1], SortBy(xs[..|xs| - 1], le), le)
  }

  lemma {:induction false} InsertSorted<T(!new)>(x: T, ys: seq<T>, le: (T, T) -> bool)
    requires TotalPreorder(le)
    requires SortedBy(ys, le)
    ensures SortedBy(Insert(x, ys, le), le)
  {
    if |ys| > 0 && le(ys[0], x) {
      InsertSorted(x, ys[1..], le);
      var r := Insert(x, ys, le);
      var tail := Insert(x, ys[1..], le);
      assert r == [ys[0]] + tail;
      forall j | 1 <= j < |r|
        ensures le(ys[0], r[j])
      {
        assert r[j] in multiset(tail);
        assert r[j] in multiset(ys[1..]) + multiset{x};
        if r[j] != x {
          assert r[j] in multiset(ys[1..]);
          var k :| 0 <= k < |ys[1..]| && ys[1..][k] == r[j];
          assert ys[k + 1] == r[j];
        }
      }
    }
  }

  /** Under a total preorder the result is sorted. */
  lemma {:induction false} SortBySorted<T(!new)>(xs: seq<T>, le: (T, T) -> bool)
    requires TotalPreorder(le)
    ensures SortedBy(SortBy(xs, le), le)
  {
    if |xs| > 0 {
      SortBySorted(xs[..|xs| - 1], le);
      InsertSorted(xs[|xs| - 1], SortBy(xs[..|xs| - 1], le), le);
    }
  }

  /** `a` and `b` tie under `le`. */
  predicate Tie<T>(le: (T, T) -> bool, a: T, b: T) {
    le(a, b) && le(b, a)
  }

  /** The elements that tie with `z`. */
  function TieClass<T>(le: (T, T) -> bool, z: T): T -> bool {
    (y: T) => Tie(le, y, z)
  }

  /** Inserting into a sorted sequence puts `x` after every element it ties with,
      and leaves the order of every other tie class alone. */
  lemma {:induction false} InsertStable<T(!new)>(x: T, ys: seq<T>, le: (T, T) -> bool, z: T)
    requires TotalPreorder(le)
    requires SortedBy(ys, le)
    ensures Filter(Insert(x, ys, le), TieClass(le, z)) ==
      Filter(ys, TieClass(le, z)) + (if Tie(le, x, z) then [x] else [])
  {
    var p := TieClass(le, z);
    if |ys| == 0 {
    } else if le(ys[0], x) {
      InsertStable(x, ys[1..], le, z);
      assert Insert(x, ys, le) == [ys[0]] + Insert(x, ys[1..], le);
    } else {
      assert Insert(x, ys, le) == [x] + ys;
      if Tie(le, x, z) {
        NoTieAfter(x, ys, le, z);
        assert Filter(ys, p) == [];
        FilterAppend([x], ys, p);
      } else {
        FilterAppend([x], ys, p);
      }
    }
  }

  /** When `x` goes strictly before the head of a sorted sequence, nothing in it ties with `x`. */
  lemma {:induction false} NoTieAfter<T(!new)>(x: T, ys: seq<T>, le: (T, T) -> bool, z: T)
    requires TotalPreorder(le)
    requires SortedBy(ys, le)
    requires |ys| > 0 && !le(ys[0], x)
    requires Tie(le, x, z)
    ensures Filter(ys, TieClass(le, z)) == []
  {
    if |ys| > 1 {
      assert le(ys[0], ys[1]);
      assert !le(ys[1], x);
      NoTieAfter(x, ys[1..], le, z);
    }
  }

  /** Stability: within each class of tying elements the result keeps the input order. */
  lemma {:induction false} SortByStable<T(!new)>(xs: seq<T>, le: (T, T) -> bool, z: T)
    requires TotalPreorder(le)
    ensures Filter(SortBy(xs, le), TieClass(le, z)) == Filter(xs, TieClass(le, z))
  {
    if |xs| > 0 {
      SortByStable(xs[..|xs| - 1], le, z);
      StableSnoc(xs, le, z);
    }
  }

  /** Sorting one more element keeps stability, given that sorting the rest did. */
  lemma StableSnoc<T(!new)>(xs: seq<T>, le: (T, T) -> bool, z: T)
    requires TotalPreorder(le)
    requires |xs| > 0
    requires Filter(SortBy(xs[..|xs| - 1], le), TieClass(le, z)) == Filter(xs[..|xs| - 1], TieClass(le, z))
    ensures Filter(SortBy(xs, le), TieClass(le, z)) == Filter(xs, TieClass(le, z))
  {
    var init := xs[..|xs| - 1];
    SortBySorted(init, le);
    InsertStable(xs[|xs| - 1], SortBy(init, le), le, z);
    StableCombine(xs, le, z);
  }

  /** The sequence bookkeeping of `StableSnoc`. */
  lemma StableCombine<T>(xs: seq<T>, le: (T, T) -> bool, z: T)
    requires |xs| > 0
    requires Filter(SortBy(xs[..|xs| - 1], le), TieClass(le, z)) == Filter(xs[..|xs| - 1], TieClass(le, z))
    requires Filter(Insert(xs[|xs| - 1], SortBy(xs[..|xs| - 1], le), le), TieClass(le, z)) ==
      Filter(SortBy(xs[..|xs| - 1], le), TieClass(le, z)) + (if Tie(le, xs[|xs| - 1], z) then [xs[|xs| - 1]] else [])
    ensures Filter(SortBy(xs, le), TieClass(le, z)) == Filter(xs, TieClass(le, z))
  {
    var p := TieClass(le, z);
    SortBySnoc(xs, le);
    FilterSnoc(xs, p);
    assert p(xs[|xs| - 1]) == Tie(le, xs[|xs| - 1], z);
  }

  lemma SortBySnoc<T>(xs: seq<T>, le: (T, T) -> bool)
    requires |xs| > 0
    ensures SortBy(xs, le) == Insert(xs[|xs| - 1], SortBy(xs[..|xs| - 1], le), le)
  {
  }

  /** Filtering a sequence filters its front and then tests its last element. */
  lemma FilterSnoc<T>(xs: seq<T>, p: T -> bool)
    requires |xs| > 0
    ensures Filter(xs, p) == Filter(xs[..|xs| - 1], p) + (if p(xs[|xs| - 1]) then [xs[|xs| - 1]] else [])
  {
    var init, x := xs[..|xs| - 1], xs[|xs| - 1];
    assert xs == init + [x];
    FilterAppend(init, [x], p);
    FilterSingleton(x, p);
  }

  lemma FilterSingleton<T>(x: T, p: T -> bool)
    ensures Filter([x], p) == if p(x) then [x] else []
  {
    assert [x][1..] == [];
  }
}
