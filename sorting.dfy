/**
 * Python's `sorted(xs, key=k)`: a stable sort. Both tools sort with it (the
 * normalizer by `msgid`, the export by `(context, key.lower())`); here it is
 * an insertion sort under a comparison `le` that holds when the first key is
 * not greater than the second, together with the three things `sorted`
 * promises: the result is ordered, it is a permutation of the input, and
 * elements with equal keys keep their input order.
 */
module Sorting {

  /** `le` compares by a key drawn from a total order. */
  ghost predicate TotalPreorder<T(!new)>(le: (T, T) -> bool) {
    && (forall a, b :: le(a, b) || le(b, a))
    && (forall a, b, c :: le(a, b) && le(b, c) ==> le(a, c))
  }

  predicate Sorted<T>(s: seq<T>, le: (T, T) -> bool) {
    forall i, j :: 0 <= i < j < |s| ==> le(s[i], s[j])
  }

  /** `a` and `b` have equal keys. */
  predicate Tie<T>(a: T, b: T, le: (T, T) -> bool) {
    le(a, b) && le(b, a)
  }

  /** The elements of `s` whose key equals that of `x`, in the order of `s`. */
  function Ties<T>(s: seq<T>, x: T, le: (T, T) -> bool): seq<T> {
    if s == [] then [] else (if Tie(s[0], x, le) then [s[0]] else []) + Ties(s[1..], x, le)
  }

  /** Inserts `x` after every element whose key is not greater than its own. */
  function Insert<T>(x: T, s: seq<T>, le: (T, T) -> bool): seq<T> {
    if s == [] then [x]
    else if le(s[0], x) then [s[0]] + Insert(x, s[1..], le)
    else [x] + s
  }

  /** The stable sort: each element in input order is inserted after its equals. */
  function StableSort<T>(s: seq<T>, le: (T, T) -> bool): seq<T> {
    if s == [] then []
    else Insert(s[|s| - 1], StableSort(s[..|s| - 1], le), le)
  }

  lemma {:induction false} InsertPermutation<T>(x: T, s: seq<T>, le: (T, T) -> bool)
    ensures multiset(Insert(x, s, le)) == multiset(s) + multiset{x}
  {
    if s != [] && le(s[0], x) {
      assert s == [s[0]] + s[1..];
      InsertPermutation(x, s[1..], le);
    }
  }

  /** The result of `sorted` is a permutation of its input. */
  lemma {:induction false} SortIsPermutation<T>(s: seq<T>, le: (T, T) -> bool)
    ensures multiset(StableSort(s, le)) == multiset(s)
  {
    if s != [] {
      var init := s[..|s| - 1];
      assert s == init + [s[|s| - 1]];
      SortIsPermutation(init, le);
      InsertPermutation(s[|s| - 1], StableSort(init, le), le);
    }
  }

  lemma {:induction false} InsertSorted<T(!new)>(x: T, s: seq<T>, le: (T, T) -> bool)
    requires TotalPreorder(le) && Sorted(s, le)
    ensures Sorted(Insert(x, s, le), le)
  {
    if s != [] {
      if le(s[0], x) {
        InsertSorted(x, s[1..], le);
        var r := Insert(x, s, le);
        var t := Insert(x, s[1..], le);
        InsertPermutation(x, s[1..], le);
        assert multiset(t) == multiset(s[1..]) + multiset{x};
        forall j | 0 < j < |r| ensures le(r[0], r[j]) {
          assert r[j] == t[j - 1];
          assert r[j] in multiset(t);
          if r[j] != x {
            assert r[j] in multiset(s[1..]);
            var k :| 0 <= k < |s[1..]| && s[1..][k] == r[j];
            assert s[k + 1] == r[j];
          }
        }
      } else {
        assert le(x, s[0]);
      }
    }
  }

  /** The result of `sorted` is ordered. */
  lemma {:induction false} SortedResult<T(!new)>(s: seq<T>, le: (T, T) -> bool)
    requires TotalPreorder(le)
    ensures Sorted(StableSort(s, le), le)
  {
    if s != [] {
      SortedResult(s[..|s| - 1], le);
      InsertSorted(s[|s| - 1], StableSort(s[..|s| - 1], le), le);
    }
  }

  lemma {:induction false} TiesAppend<T>(a: seq<T>, b: seq<T>, x: T, le: (T, T) -> bool)
    ensures Ties(a + b, x, le) == Ties(a, x, le) + Ties(b, x, le)
  {
    if a != [] {
      assert (a + b)[0] == a[0];
      assert (a + b)[1..] == a[1..] + b;
      TiesAppend(a[1..], b, x, le);
      var h := if Tie(a[0], x, le) then [a[0]] else [];
      assert Ties(a + b, x, le) == h + (Ties(a[1..], x, le) + Ties(b, x, le));
      assert Ties(a, x, le) == h + Ties(a[1..], x, le);
      assert h + (Ties(a[1..], x, le) + Ties(b, x, le)) == (h + Ties(a[1..], x, le)) + Ties(b, x, le);
    } else {
      assert a + b == b;
    }
  }

  lemma {:induction false} NoTies<T>(s: seq<T>, x: T, le: (T, T) -> bool)
    requires forall k :: 0 <= k < |s| ==> !Tie(s[k], x, le)
    ensures Ties(s, x, le) == []
  {
    if s != [] {
      NoTies(s[1..], x, le);
    }
  }

  lemma Reflexive<T(!new)>(a: T, le: (T, T) -> bool)
    requires TotalPreorder(le)
    ensures le(a, a)
  {
    assert le(a, a) || le(a, a);
  }

  /** When `x` goes first, nothing in `s` ties with an equal of `x`. */
  lemma NoTieBelow<T(!new)>(x: T, s: seq<T>, y: T, le: (T, T) -> bool)
    requires TotalPreorder(le) && Sorted(s, le)
    requires s != [] && !le(s[0], x) && Tie(x, y, le)
    ensures forall k :: 0 <= k < |s| ==> !Tie(s[k], y, le)
  {
    forall k | 0 <= k < |s| ensures !le(s[k], y) {
      Reflexive(s[0], le);
      assert le(s[0], s[k]);
    }
  }

  /** Inserting `x` in front of `s` adds it to the ties of `y` after those of `s`. */
  lemma InsertFrontTies<T(!new)>(x: T, s: seq<T>, y: T, le: (T, T) -> bool)
    requires TotalPreorder(le) && Sorted(s, le) && s != [] && !le(s[0], x)
    ensures Ties(Insert(x, s, le), y, le) == Ties(s, y, le) + (if Tie(x, y, le) then [x] else [])
  {
    var r := Insert(x, s, le);
    assert r[0] == x && r[1..] == s;
    if Tie(x, y, le) {
      NoTieBelow(x, s, y, le);
      NoTies(s, y, le);
    }
  }

  /** Inserting `x` past `s[0]` keeps `s[0]`'s place among the ties. */
  lemma InsertPastTies<T>(x: T, s: seq<T>, y: T, le: (T, T) -> bool)
    requires s != [] && le(s[0], x)
    requires Ties(Insert(x, s[1..], le), y, le) == Ties(s[1..], y, le) + (if Tie(x, y, le) then [x] else [])
    ensures Ties(Insert(x, s, le), y, le) == Ties(s, y, le) + (if Tie(x, y, le) then [x] else [])
  {
    var tail := if Tie(x, y, le) then [x] else [];
    var h := if Tie(s[0], y, le) then [s[0]] else [];
    var r := Insert(x, s, le);
    assert r[0] == s[0] && r[1..] == Insert(x, s[1..], le);
    calc {
      Ties(r, y, le);
      h + Ties(r[1..], y, le);
      h + (Ties(s[1..], y, le) + tail);
      (h + Ties(s[1..], y, le)) + tail;
      Ties(s, y, le) + tail;
    }
  }

  lemma {:induction false} InsertTies<T(!new)>(x: T, s: seq<T>, y: T, le: (T, T) -> bool)
    requires TotalPreorder(le) && Sorted(s, le)
    ensures Ties(Insert(x, s, le), y, le) == Ties(s, y, le) + (if Tie(x, y, le) then [x] else [])
  {
    if s == [] {
      var r := Insert(x, s, le);
      assert r == [x] && r[1..] == [];
      assert Ties(r, y, le) == (if Tie(x, y, le) then [x] else []) + Ties([], y, le);
    } else if le(s[0], x) {
      assert Sorted(s[1..], le);
      InsertTies(x, s[1..], y, le);
      InsertPastTies(x, s, y, le);
    } else {
      InsertFrontTies(x, s, y, le);
    }
  }

  lemma StableSortLast<T>(s: seq<T>, le: (T, T) -> bool)
    requires s != []
    ensures StableSort(s, le) == Insert(s[|s| - 1], StableSort(s[..|s| - 1], le), le)
  {
  }

  /** The ties of a one-element sequence. */
  lemma TiesSingle<T>(x: T, y: T, le: (T, T) -> bool)
    ensures Ties([x], y, le) == if Tie(x, y, le) then [x] else []
  {
    assert [x][1..] == [];
  }

  /** One step of the sort: the last element joins the ties after those of the sorted prefix. */
  lemma SortLastTies<T(!new)>(s: seq<T>, y: T, le: (T, T) -> bool)
    requires TotalPreorder(le) && s != []
    ensures Ties(StableSort(s, le), y, le) == Ties(StableSort(s[..|s| - 1], le), y, le) + Ties([s[|s| - 1]], y, le)
  {
    var init, last := s[..|s| - 1], s[|s| - 1];
    StableSortLast(s, le);
    SortedResult(init, le);
    InsertTies(last, StableSort(init, le), y, le);
    TiesSingle(last, y, le);
  }

  lemma LastSplit<T>(s: seq<T>)
    requires s != []
    ensures s == s[..|s| - 1] + [s[|s| - 1]]
  {
  }

  /** Elements with equal keys come out of `sorted` in their input order. */
  lemma {:induction false} SortIsStable<T(!new)>(s: seq<T>, y: T, le: (T, T) -> bool)
    requires TotalPreorder(le)
    ensures Ties(StableSort(s, le), y, le) == Ties(s, y, le)
  {
    if s != [] {
      var init, last := s[..|s| - 1], s[|s| - 1];
      SortIsStable(init, y, le);
      SortLastTies(s, y, le);
      TiesAppend(init, [last], y, le);
      LastSplit(s);
    }
  }

}
