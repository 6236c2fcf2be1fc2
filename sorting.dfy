/**
 * `Array.prototype.sort(compare)` with a consistent comparator: since ES2019 the
 * sort is stable, so its result is determined by the order `leq(a, b)`, which
 * stands for `compare(a, b) <= 0`. It is given here as a stable insertion sort.
 */
module Sorting {
  import opened Seqs

  /** `leq` is total and transitive: what a consistent comparator provides. */
  ghost predicate TotalPreorder<T(!new)>(leq: (T, T) -> bool) {
    && (forall a, b :: leq(a, b) || leq(b, a))
    && (forall a, b, c :: leq(a, b) && leq(b, c) ==> leq(a, c))
  }

  ghost predicate Sorted<T>(s: seq<T>, leq: (T, T) -> bool) {
    forall i, j :: 0 <= i < j < |s| ==> leq(s[i], s[j])
  }

  /** The comparator returns 0 for `a` and `b`: they tie. */
  predicate Ties<T>(leq: (T, T) -> bool, a: T, b: T) {
    leq(a, b) && leq(b, a)
  }

  /** The test "ties with `y`", as a filter predicate. */
  function TiesWith<T>(leq: (T, T) -> bool, y: T): T -> bool {
    z => Ties(leq, z, y)
  }

  /** Places `x` after every element it does not precede, before the first one it does. */
  function Insert<T>(x: T, s: seq<T>, leq: (T, T) -> bool): (r: seq<T>)
    ensures multiset(r) == multiset(s) + multiset{x}
  {
    if s == [] then [x]
    else if leq(s[0], x) then
      assert s == [s[0]] + s[1..];
      [s[0]] + Insert(x, s[1..], leq)
    else [x] + s
  }

  /** The stable sort of `s` by `leq`. */
  function Sort<T>(s: seq<T>, leq: (T, T) -> bool): (r: seq<T>)
    ensures multiset(r) == multiset(s)
  {
    if s == [] then []
    else
      assert s == s[..|s| - 1] + [s[|s| - 1]];
      Insert(s[|s| - 1], Sort(s[..|s| - 1], leq), leq)
  }

  /** Two elements the comparator puts the other way round come back swapped. */
  lemma SortPairSwaps<T>(x: T, y: T, leq: (T, T) -> bool)
    requires !leq(x, y)
    ensures Sort([x, y], leq) == [y, x]
  {
    assert [x, y][..1] == [x] && [x][..0] == [];
    assert Sort([x], leq) == [x];
  }

  lemma {:induction false} InsertSorted<T(!new)>(x: T, s: seq<T>, leq: (T, T) -> bool)
    requires TotalPreorder(leq) && Sorted(s, leq)
    ensures Sorted(Insert(x, s, leq), leq)
  {
    if s != [] && leq(s[0], x) {
      InsertSorted(x, s[1..], leq);
      var r := Insert(x, s, leq);
      forall j | 0 < j < |r| ensures leq(r[0], r[j]) {
        assert r[j] in multiset(Insert(x, s[1..], leq));
        assert r[j] in multiset(s[1..]) + multiset{x};
        if r[j] != x {
          assert r[j] in s[1..];
        }
      }
    }
  }

  /** The sorted sequence is ordered by `leq` and is a permutation of its input. */
  lemma {:induction false} SortSorted<T(!new)>(s: seq<T>, leq: (T, T) -> bool)
    requires TotalPreorder(leq)
    ensures Sorted(Sort(s, leq), leq)
  {
    if s != [] {
      SortSorted(s[..|s| - 1], leq);
      InsertSorted(s[|s| - 1], Sort(s[..|s| - 1], leq), leq);
    }
  }

  /** In a sorted sequence whose head comes strictly after `x`, nothing ties with `x`'s class. */
  lemma NothingTiesBelow<T(!new)>(x: T, s: seq<T>, leq: (T, T) -> bool, y: T)
    requires TotalPreorder(leq) && Sorted(s, leq)
    requires s != [] && !leq(s[0], x) && Ties(leq, x, y)
    ensures forall i :: 0 <= i < |s| ==> !Ties(leq, s[i], y)
  {
  }

  /** Inserting `x` appends it to the elements that tie with a given `y`, or leaves them alone. */
  lemma {:induction false} InsertStable<T(!new)>(x: T, s: seq<T>, leq: (T, T) -> bool, y: T)
    requires TotalPreorder(leq) && Sorted(s, leq)
    ensures Filter(Insert(x, s, leq), TiesWith(leq, y))
         == Filter(s, TiesWith(leq, y)) + (if Ties(leq, x, y) then [x] else [])
  {
    var tie := TiesWith(leq, y);
    if s == [] {
    } else if leq(s[0], x) {
      var tail := s[1..];
      assert Sorted(tail, leq) by {
        forall i, j | 0 <= i < j < |tail| ensures leq(tail[i], tail[j]) {
          assert tail[i] == s[i + 1] && tail[j] == s[j + 1];
        }
      }
      InsertStable(x, tail, leq, y);
      var extra := if Ties(leq, x, y) then [x] else [];
      var r := Insert(x, tail, leq);
      assert s == [s[0]] + tail;
      calc {
        Filter(Insert(x, s, leq), tie);
        Filter([s[0]] + r, tie);
        { FilterAppend([s[0]], r, tie); }
        Filter([s[0]], tie) + (Filter(tail, tie) + extra);
        (Filter([s[0]], tie) + Filter(tail, tie)) + extra;
        { FilterAppend([s[0]], tail, tie); }
        Filter(s, tie) + extra;
      }
    } else {
      InsertStableFront(x, s, leq, y);
    }
  }

  /** `InsertStable` when `x` goes in front: nothing after it ties with `x`'s class. */
  lemma InsertStableFront<T(!new)>(x: T, s: seq<T>, leq: (T, T) -> bool, y: T)
    requires TotalPreorder(leq) && Sorted(s, leq)
    requires s != [] && !leq(s[0], x)
    ensures Filter(Insert(x, s, leq), TiesWith(leq, y))
         == Filter(s, TiesWith(leq, y)) + (if Ties(leq, x, y) then [x] else [])
  {
    var tie := TiesWith(leq, y);
    assert Insert(x, s, leq) == [x] + s;
    FilterAppend([x], s, tie);
    if tie(x) {
      NothingTiesBelow(x, s, leq, y);
      FilterKeepsNone(s, tie);
    }
  }

  /**
   * Stability: the elements that tie with any `y` appear in the sorted sequence
   * in the order they had in the input.
   */
  lemma {:induction false} SortStable<T(!new)>(s: seq<T>, leq: (T, T) -> bool, y: T)
    requires TotalPreorder(leq)
    ensures Filter(Sort(s, leq), TiesWith(leq, y)) == Filter(s, TiesWith(leq, y))
  {
    if s != [] {
      var init, last := s[..|s| - 1], s[|s| - 1];
      assert s == init + [last];
      assert Sort(s, leq) == Insert(last, Sort(init, leq), leq);
      SortStable(init, leq, y);
      SortSorted(init, leq);
      InsertStable(last, Sort(init, leq), leq, y);
      FilterAppend(init, [last], TiesWith(leq, y));
      assert Filter([last], TiesWith(leq, y)) == if Ties(leq, last, y) then [last] else [];
    }
  }

  /** A sequence that is already sorted is its own sort. */
  lemma {:induction false} SortOfSorted<T(!new)>(s: seq<T>, leq: (T, T) -> bool)
    requires Sorted(s, leq)
    ensures Sort(s, leq) == s
  {
    if s != [] {
      var init, last := s[..|s| - 1], s[|s| - 1];
      SortedSplitsLast(s, leq);
      calc {
        Sort(s, leq);
        Insert(last, Sort(init, leq), leq);
        { SortOfSorted(init, leq); }
        Insert(last, init, leq);
        { InsertAtEnd(last, init, leq); }
        init + [last];
        s;
      }
    }
  }

  /** Dropping the last element of a sorted sequence leaves it sorted, and below that element. */
  lemma SortedSplitsLast<T>(s: seq<T>, leq: (T, T) -> bool)
    requires Sorted(s, leq) && s != []
    ensures Sorted(s[..|s| - 1], leq)
    ensures forall i :: 0 <= i < |s| - 1 ==> leq(s[i], s[|s| - 1])
  {
  }

  lemma {:induction false} InsertAtEnd<T(!new)>(x: T, s: seq<T>, leq: (T, T) -> bool)
    requires forall i :: 0 <= i < |s| ==> leq(s[i], x)
    ensures Insert(x, s, leq) == s + [x]
  {
    if s != [] {
      InsertAtEnd(x, s[1..], leq);
      assert s == [s[0]] + s[1..];
    }
  }
}
