/**
 * The library sorts the modelled code calls (`Array.prototype.sort` with a
 * comparator, Python's `list.sort(key=...)`), modelled as a stable insertion
 * sort over a total preorder `le`, with the facts callers rely on: the
 * result is ordered, is a permutation of the input, and keeps elements that
 * rank together in their input order.
 */
module Sorting {

  ghost predicate TotalPreorder<T(!new)>(le: (T, T) -> bool)
  {
    && (forall a, b :: le(a, b) || le(b, a))
    && (forall a, b, c :: le(a, b) && le(b, c) ==> le(a, c))
  }

  predicate Sorted<T>(s: seq<T>, le: (T, T) -> bool)
  {
    forall i, j :: 0 <= i < j < |s| ==> le(s[i], s[j])
  }

  /** Puts `x` after every leading element that is `le` it. */
  function Insert<T>(x: T, s: seq<T>, le: (T, T) -> bool): seq<T>
  {
    if s == [] then [x]
    else if le(s[0], x) then [s[0]] + Insert(x, s[1..], le)
    else [x] + s
  }

  /** Sorts the prefix, then inserts the last element after its equals (stable). */
  function InsertionSort<T>(s: seq<T>, le: (T, T) -> bool): seq<T>
  {
    if s == [] then [] else Insert(s[|s| - 1], InsertionSort(s[..|s| - 1], le), le)
  }

  lemma {:induction false} InsertIsAddition<T>(x: T, s: seq<T>, le: (T, T) -> bool)
    ensures multiset(Insert(x, s, le)) == multiset(s) + multiset{x}
  {
    if s != [] {
      if le(s[0], x) {
        InsertIsAddition(x, s[1..], le);
        assert s == [s[0]] + s[1..];
      }
    }
  }

  lemma {:induction false} InsertKeepsSorted<T(!new)>(x: T, s: seq<T>, le: (T, T) -> bool)
    requires TotalPreorder(le)
    requires Sorted(s, le)
    ensures Sorted(Insert(x, s, le), le)
  {
    if s != [] && le(s[0], x) {
      InsertKeepsSorted(x, s[1..], le);
      var rest := Insert(x, s[1..], le);
      InsertIsAddition(x, s[1..], le);
      forall k | 0 <= k < |rest| ensures le(s[0], rest[k]) {
        assert rest[k] in multiset(rest);
        if rest[k] != x {
          assert rest[k] in multiset(s[1..]);
          assert rest[k] in s[1..];
        }
      }
    }
  }

  lemma {:induction false} InsertionSortCorrect<T(!new)>(s: seq<T>, le: (T, T) -> bool)
    requires TotalPreorder(le)
    ensures Sorted(InsertionSort(s, le), le)
    ensures multiset(InsertionSort(s, le)) == multiset(s)
  {
    if s != [] {
      var init := s[..|s| - 1];
      InsertionSortCorrect(init, le);
      InsertKeepsSorted(s[|s| - 1], InsertionSort(init, le), le);
      InsertIsAddition(s[|s| - 1], InsertionSort(init, le), le);
      assert s == init + [s[|s| - 1]];
    }
  }

  lemma ConcatSplit<T>(a: seq<T>, b: seq<T>)
    requires a != []
    ensures (a + b)[0] == a[0] && (a + b)[1..] == a[1..] + b
  {
  }

  lemma ConcatAssoc<T>(a: seq<T>, b: seq<T>, c: seq<T>)
    ensures a + (b + c) == (a + b) + c
  {
  }

  lemma SplitLast<T>(s: seq<T>)
    requires s != []
    ensures s == s[..|s| - 1] + [s[|s| - 1]]
  {
  }

  /** `[x]` when `le` ranks `x` together with `y`, otherwise nothing. */
  function RankedWith<T>(x: T, y: T, le: (T, T) -> bool): seq<T>
  {
    if le(x, y) && le(y, x) then [x] else []
  }

  /** The elements of `s` that `le` ranks together with `y`, in their order in `s`. */
  function EqualsOf<T>(s: seq<T>, y: T, le: (T, T) -> bool): seq<T>
  {
    if s == [] then [] else RankedWith(s[0], y, le) + EqualsOf(s[1..], y, le)
  }

  lemma {:induction false} EqualsOfAppend<T>(a: seq<T>, b: seq<T>, y: T, le: (T, T) -> bool)
    ensures EqualsOf(a + b, y, le) == EqualsOf(a, y, le) + EqualsOf(b, y, le)
  {
    if a == [] {
      assert a + b == b;
    } else {
      EqualsOfAppend(a[1..], b, y, le);
      ConcatSplit(a, b);
      ConcatAssoc(RankedWith(a[0], y, le), EqualsOf(a[1..], y, le), EqualsOf(b, y, le));
    }
  }

  lemma EqualsOfSingle<T>(x: T, y: T, le: (T, T) -> bool)
    ensures EqualsOf([x], y, le) == RankedWith(x, y, le)
  {
    assert [x][1..] == [];
  }

  lemma {:induction false} EqualsOfNone<T>(s: seq<T>, y: T, le: (T, T) -> bool)
    requires forall i :: 0 <= i < |s| ==> RankedWith(s[i], y, le) == []
    ensures EqualsOf(s, y, le) == []
  {
    if s != [] {
      assert forall i :: 0 <= i < |s| - 1 ==> s[1..][i] == s[i + 1];
      EqualsOfNone(s[1..], y, le);
    }
  }

  /** Inserting into an ordered list puts `x` after the elements ranked with it. */
  lemma {:induction false} InsertIsStable<T(!new)>(x: T, s: seq<T>, y: T, le: (T, T) -> bool)
    requires TotalPreorder(le)
    requires Sorted(s, le)
    ensures EqualsOf(Insert(x, s, le), y, le) == EqualsOf(s, y, le) + RankedWith(x, y, le)
  {
    if s == [] {
    } else if le(s[0], x) {
      InsertIsStable(x, s[1..], y, le);
      InsertAfterHead(x, s, y, le);
    } else {
      InsertBeforeAll(x, s, y, le);
    }
  }

  /** The step of `InsertIsStable` where `x` goes past the first element. */
  lemma InsertAfterHead<T>(x: T, s: seq<T>, y: T, le: (T, T) -> bool)
    requires s != [] && le(s[0], x)
    requires EqualsOf(Insert(x, s[1..], le), y, le) == EqualsOf(s[1..], y, le) + RankedWith(x, y, le)
    ensures EqualsOf(Insert(x, s, le), y, le) == EqualsOf(s, y, le) + RankedWith(x, y, le)
  {
    var rest := Insert(x, s[1..], le);
    ConcatSplit([s[0]], rest);
    ConcatAssoc(RankedWith(s[0], y, le), EqualsOf(s[1..], y, le), RankedWith(x, y, le));
  }

  /** The step of `InsertIsStable` where `x` goes in front: nothing in `s` ranks with it. */
  lemma InsertBeforeAll<T(!new)>(x: T, s: seq<T>, y: T, le: (T, T) -> bool)
    requires TotalPreorder(le)
    requires Sorted(s, le)
    requires s != [] && !le(s[0], x)
    ensures EqualsOf(Insert(x, s, le), y, le) == EqualsOf(s, y, le) + RankedWith(x, y, le)
  {
    assert ([x] + s)[0] == x && ([x] + s)[1..] == s;
    if le(x, y) && le(y, x) {
      forall i | 0 <= i < |s| ensures RankedWith(s[i], y, le) == [] {
        if i > 0 {
          assert le(s[0], s[i]);
        }
      }
      EqualsOfNone(s, y, le);
    }
  }

  /**
   * The sort is stable: for every `y`, the elements ranked together with `y`
   * come out in the order they went in.
   */
  lemma {:induction false} InsertionSortIsStable<T(!new)>(s: seq<T>, y: T, le: (T, T) -> bool)
    requires TotalPreorder(le)
    ensures EqualsOf(InsertionSort(s, le), y, le) == EqualsOf(s, y, le)
  {
    if s != [] {
      var init, last := s[..|s| - 1], s[|s| - 1];
      assert InsertionSort(s, le) == Insert(last, InsertionSort(init, le), le);
      InsertionSortIsStable(init, y, le);
      InsertionSortCorrect(init, le);
      InsertIsStable(last, InsertionSort(init, le), y, le);
      SplitLast(s);
      EqualsOfAppend(init, [last], y, le);
      EqualsOfSingle(last, y, le);
    }
  }

  /** `f` applied to every element, in order. */
  function Apply<T, U>(s: seq<T>, f: T -> U): (r: seq<U>)
    ensures |r| == |s|
    ensures forall i :: 0 <= i < |s| ==> r[i] == f(s[i])
  {
    seq(|s|, i requires 0 <= i < |s| => f(s[i]))
  }

  lemma ApplySnoc<T, U>(s: seq<T>, x: T, f: T -> U)
    ensures Apply(s + [x], f) == Apply(s, f) + [f(x)]
  {
  }

  /** `s` without its element at `k`. */
  function RemoveAt<T>(s: seq<T>, k: int): (r: seq<T>)
    requires 0 <= k < |s|
    ensures |r| == |s| - 1
    ensures multiset(r) == multiset(s) - multiset{s[k]}
  {
    assert s == s[..k] + [s[k]] + s[k + 1..];
    s[..k] + s[k + 1..]
  }

  lemma ApplyRemoveAt<T, U>(s: seq<T>, k: int, f: T -> U)
    requires 0 <= k < |s|
    ensures multiset(Apply(s, f)) == multiset(Apply(RemoveAt(s, k), f)) + multiset{f(s[k])}
  {
    assert Apply(s, f) == Apply(s[..k], f) + [f(s[k])] + Apply(s[k + 1..], f);
    assert Apply(RemoveAt(s, k), f) == Apply(s[..k], f) + Apply(s[k + 1..], f);
  }

  /** Permuting a list permutes the images of its elements. */
  lemma {:induction false} ApplyPermutation<T, U>(a: seq<T>, b: seq<T>, f: T -> U)
    requires multiset(a) == multiset(b)
    ensures multiset(Apply(a, f)) == multiset(Apply(b, f))
    decreases |a|
  {
    if a == [] {
      assert |b| == |multiset(b)|;
    } else {
      var x := a[0];
      assert x in multiset(b);
      var k :| 0 <= k < |b| && b[k] == x;
      assert RemoveAt(a, 0) == a[1..];
      ApplyPermutation(a[1..], RemoveAt(b, k), f);
      ApplyRemoveAt(a, 0, f);
      ApplyRemoveAt(b, k, f);
    }
  }
}
