/** `Array.prototype.sort(comparefn)` as the note list uses it. Since ECMA-262
    10th edition (ES2019, section 22.1.3.27) the sort is stable: elements the
    comparator ranks equal keep their original order. The model is an insertion
    sort; StableSortIsUnique shows that every stable sort (V8's TimSort among
    them) returns the very same sequence for a consistent comparator. */
module ArraySort {

  /** A consistent comparator in the sense of ECMA-262: a negative result one
      way is a positive result the other way, and "ranks no later than"
      (`cmp(a, b) <= 0`) is transitive. With any other comparator the
      standard leaves the order to the implementation. */
  ghost predicate Consistent<T(!new)>(cmp: (T, T) -> int) {
    && (forall a, b :: cmp(a, b) < 0 <==> cmp(b, a) > 0)
    && (forall a, b, c :: cmp(a, b) <= 0 && cmp(b, c) <= 0 ==> cmp(a, c) <= 0)
  }

  /** No element ranks after a later one. */
  ghost predicate Sorted<T>(s: seq<T>, cmp: (T, T) -> int) {
    forall i, j :: 0 <= i < j < |s| ==> cmp(s[i], s[j]) <= 0
  }

  /** The elements of `s` that `cmp` ranks equal to `x`, in their order in `s`. */
  function EqualRanked<T>(s: seq<T>, x: T, cmp: (T, T) -> int): seq<T>
  {
    if s == [] then []
    else (if cmp(x, s[0]) == 0 then [s[0]] else []) + EqualRanked(s[1..], x, cmp)
  }

  /** The order-preserving guarantee of a stable sort: for every `x`, the
      elements ranked equal to `x` appear in `r` in the order they had in `s`. */
  ghost predicate StableWith<T(!new)>(r: seq<T>, s: seq<T>, cmp: (T, T) -> int) {
    forall x :: EqualRanked(r, x, cmp) == EqualRanked(s, x, cmp)
  }

  /** Place `x` in front of the first element it does not rank after. */
  function Insert<T>(x: T, s: seq<T>, cmp: (T, T) -> int): seq<T>
  {
    if s == [] || cmp(x, s[0]) <= 0 then [x] + s
    else [s[0]] + Insert(x, s[1..], cmp)
  }

  lemma {:induction false} InsertPermutes<T>(x: T, s: seq<T>, cmp: (T, T) -> int)
    ensures multiset(Insert(x, s, cmp)) == multiset(s) + multiset{x}
  {
    if s != [] && cmp(x, s[0]) > 0 {
      InsertPermutes(x, s[1..], cmp);
      assert s == [s[0]] + s[1..];
    }
  }

  /** The sorted copy `[...s].sort(cmp)`: a permutation of `s`. */
  function Sort<T>(s: seq<T>, cmp: (T, T) -> int): (r: seq<T>)
    ensures multiset(r) == multiset(s)
  {
    if s == [] then []
    else
      assert s == [s[0]] + s[1..];
      InsertPermutes(s[0], Sort(s[1..], cmp), cmp);
      Insert(s[0], Sort(s[1..], cmp), cmp)
  }

  lemma RankLaws<T(!new)>(cmp: (T, T) -> int, a: T, b: T, c: T)
    requires Consistent(cmp)
    ensures cmp(a, a) == 0
    ensures cmp(a, b) == 0 <==> cmp(b, a) == 0
    ensures cmp(a, b) > 0 ==> cmp(b, a) < 0
    ensures cmp(a, b) == 0 && cmp(b, c) == 0 ==> cmp(a, c) == 0
  {
    if cmp(a, b) == 0 && cmp(b, c) == 0 {
      assert cmp(c, b) == 0 && cmp(b, a) == 0;
      assert cmp(a, c) <= 0 && cmp(c, a) <= 0;
    }
  }

  lemma SortedCons<T>(y: T, t: seq<T>, cmp: (T, T) -> int)
    requires Sorted(t, cmp)
    requires forall j :: 0 <= j < |t| ==> cmp(y, t[j]) <= 0
    ensures Sorted([y] + t, cmp)
  {
    var r := [y] + t;
    forall i, j | 0 <= i < j < |r| ensures cmp(r[i], r[j]) <= 0 {
      if i > 0 { assert r[i] == t[i - 1] && r[j] == t[j - 1]; }
    }
  }

  lemma {:induction false} InsertSorted<T(!new)>(x: T, s: seq<T>, cmp: (T, T) -> int)
    requires Consistent(cmp) && Sorted(s, cmp)
    ensures Sorted(Insert(x, s, cmp), cmp)
  {
    if s == [] || cmp(x, s[0]) <= 0 {
      forall j | 0 <= j < |s| ensures cmp(x, s[j]) <= 0 {
        if j > 0 { assert cmp(s[0], s[j]) <= 0; }
      }
      SortedCons(x, s, cmp);
    } else {
      var y, rest := s[0], s[1..];
      var t := Insert(x, rest, cmp);
      assert Sorted(t, cmp) by {
        assert Sorted(rest, cmp);
        InsertSorted(x, rest, cmp);
      }
      forall j | 0 <= j < |t| ensures cmp(y, t[j]) <= 0 {
        InsertPermutes(x, rest, cmp);
        assert t[j] in multiset(t);
        if t[j] == x {
          RankLaws(cmp, x, y, y);
        } else {
          assert t[j] in rest;
        }
      }
      SortedCons(y, t, cmp);
    }
  }

  /** The insertion sort leaves its result sorted. */
  lemma {:induction false} SortSorted<T(!new)>(s: seq<T>, cmp: (T, T) -> int)
    requires Consistent(cmp)
    ensures Sorted(Sort(s, cmp), cmp)
  {
    if s != [] {
      SortSorted(s[1..], cmp);
      InsertSorted(s[0], Sort(s[1..], cmp), cmp);
    }
  }

  lemma {:induction false} EqualRankedMembers<T>(s: seq<T>, x: T, y: T, cmp: (T, T) -> int)
    requires y in EqualRanked(s, x, cmp)
    ensures y in s && cmp(x, y) == 0
  {
    if !(cmp(x, s[0]) == 0 && y == s[0]) {
      assert y in EqualRanked(s[1..], x, cmp);
      EqualRankedMembers(s[1..], x, y, cmp);
    }
  }

  /** A sequence stable with a non-empty one is non-empty: its first element
      is ranked equal to itself. */
  lemma StableWithNonEmpty<T(!new)>(r1: seq<T>, r2: seq<T>, cmp: (T, T) -> int)
    requires Consistent(cmp) && StableWith(r1, r2, cmp)
    ensures r1 != [] ==> r2 != []
  {
    if r1 != [] {
      RankLaws(cmp, r1[0], r1[0], r1[0]);
      assert EqualRanked(r1, r1[0], cmp) == EqualRanked(r2, r1[0], cmp);
    }
  }

  lemma EqualRankedCons<T>(y: T, t: seq<T>, x: T, cmp: (T, T) -> int)
    ensures EqualRanked([y] + t, x, cmp) == (if cmp(x, y) == 0 then [y] else []) + EqualRanked(t, x, cmp)
  {
    assert ([y] + t)[1..] == t;
  }

  /** An element ranked strictly before or after `x` is never ranked equal
      to something `x` is ranked equal to. */
  lemma NotBothEqualRanked<T(!new)>(cmp: (T, T) -> int, x: T, y: T, z: T)
    requires Consistent(cmp) && cmp(x, y) != 0
    ensures !(cmp(z, x) == 0 && cmp(z, y) == 0)
  {
    RankLaws(cmp, z, x, y);
    RankLaws(cmp, x, z, y);
  }

  /** Inserting `x` puts it ahead of every element ranked equal to it: the
      elements it is moved past rank strictly before it. */
  lemma {:induction false} InsertEqualRanked<T(!new)>(x: T, s: seq<T>, z: T, cmp: (T, T) -> int)
    requires Consistent(cmp)
    ensures EqualRanked(Insert(x, s, cmp), z, cmp) == EqualRanked([x] + s, z, cmp)
  {
    if s != [] && cmp(x, s[0]) > 0 {
      var y, rest := s[0], s[1..];
      var t := Insert(x, rest, cmp);
      var hx := if cmp(z, x) == 0 then [x] else [];
      var hy := if cmp(z, y) == 0 then [y] else [];
      assert EqualRanked(Insert(x, s, cmp), z, cmp) == hy + EqualRanked(t, z, cmp) by {
        assert Insert(x, s, cmp) == [y] + t;
        EqualRankedCons(y, t, z, cmp);
      }
      assert EqualRanked(t, z, cmp) == hx + EqualRanked(rest, z, cmp) by {
        InsertEqualRanked(x, rest, z, cmp);
        EqualRankedCons(x, rest, z, cmp);
      }
      assert EqualRanked([x] + s, z, cmp) == hx + (hy + EqualRanked(rest, z, cmp)) by {
        EqualRankedCons(x, s, z, cmp);
        assert s == [y] + rest;
        EqualRankedCons(y, rest, z, cmp);
      }
      assert hx == [] || hy == [] by {
        NotBothEqualRanked(cmp, x, y, z);
      }
    }
  }

  /** The insertion sort is stable. */
  lemma {:induction false} SortStable<T(!new)>(s: seq<T>, cmp: (T, T) -> int)
    requires Consistent(cmp)
    ensures StableWith(Sort(s, cmp), s, cmp)
  {
    if s != [] {
      SortStable(s[1..], cmp);
      forall z ensures EqualRanked(Sort(s, cmp), z, cmp) == EqualRanked(s, z, cmp) {
        InsertEqualRanked(s[0], Sort(s[1..], cmp), z, cmp);
        EqualRankedCons(s[0], Sort(s[1..], cmp), z, cmp);
        EqualRankedCons(s[0], s[1..], z, cmp);
        assert s == [s[0]] + s[1..];
      }
    }
  }

  /** Two sorted, mutually stable, non-empty sequences start alike: each
      head ranks no later than the other's, so the two are ranked equal, and
      the first element ranked equal to them is the same in both. */
  lemma SameHead<T(!new)>(r1: seq<T>, r2: seq<T>, cmp: (T, T) -> int)
    requires Consistent(cmp) && Sorted(r1, cmp) && Sorted(r2, cmp)
    requires StableWith(r1, r2, cmp) && r1 != [] && r2 != []
    ensures r1[0] == r2[0]
  {
    var a, b := r1[0], r2[0];
    RankLaws(cmp, a, b, b);
    assert cmp(a, b) <= 0 by {
      RankLaws(cmp, b, b, b);
      assert EqualRanked(r2, b, cmp)[0] == b;
      assert b in EqualRanked(r1, b, cmp);
      EqualRankedMembers(r1, b, b, cmp);
    }
    assert cmp(b, a) <= 0 by {
      RankLaws(cmp, a, a, a);
      assert EqualRanked(r1, a, cmp)[0] == a;
      assert a in EqualRanked(r2, a, cmp);
      EqualRankedMembers(r2, a, a, cmp);
    }
    assert EqualRanked(r1, a, cmp)[0] == a;
    assert EqualRanked(r2, a, cmp)[0] == b;
  }

  lemma StableWithTails<T(!new)>(r1: seq<T>, r2: seq<T>, cmp: (T, T) -> int)
    requires StableWith(r1, r2, cmp) && r1 != [] && r2 != [] && r1[0] == r2[0]
    ensures StableWith(r1[1..], r2[1..], cmp)
  {
    var a := r1[0];
    assert r1 == [a] + r1[1..] && r2 == [a] + r2[1..];
    forall z ensures EqualRanked(r1[1..], z, cmp) == EqualRanked(r2[1..], z, cmp) {
      EqualRankedCons(a, r1[1..], z, cmp);
      EqualRankedCons(a, r2[1..], z, cmp);
      var h := if cmp(z, a) == 0 then [a] else [];
      assert h + EqualRanked(r1[1..], z, cmp) == h + EqualRanked(r2[1..], z, cmp);
      assert EqualRanked(r1[1..], z, cmp) == (h + EqualRanked(r1[1..], z, cmp))[|h|..];
      assert EqualRanked(r2[1..], z, cmp) == (h + EqualRanked(r2[1..], z, cmp))[|h|..];
    }
  }

  lemma SortedTail<T>(r: seq<T>, cmp: (T, T) -> int)
    requires Sorted(r, cmp) && r != []
    ensures Sorted(r[1..], cmp)
  {
  }

  /** Two sorted sequences that are stable with respect to each other are
      equal: a consistent comparator leaves a stable sort no freedom. */
  lemma {:induction false} StableSortIsUnique<T(!new)>(r1: seq<T>, r2: seq<T>, cmp: (T, T) -> int)
    requires Consistent(cmp) && Sorted(r1, cmp) && Sorted(r2, cmp)
    requires StableWith(r1, r2, cmp)
    ensures r1 == r2
  {
    StableWithNonEmpty(r1, r2, cmp);
    StableWithNonEmpty(r2, r1, cmp);
    if r1 != [] {
      SameHead(r1, r2, cmp);
      StableWithTails(r1, r2, cmp);
      SortedTail(r1, cmp);
      SortedTail(r2, cmp);
      StableSortIsUnique(r1[1..], r2[1..], cmp);
      assert r1 == [r1[0]] + r1[1..] && r2 == [r2[0]] + r2[1..];
    }
  }

  /** Whatever stable sort runs, sorting `s` with a consistent comparator
      gives Sort(s, cmp). */
  lemma SortIsTheStableSort<T(!new)>(s: seq<T>, r: seq<T>, cmp: (T, T) -> int)
    requires Consistent(cmp) && Sorted(r, cmp) && StableWith(r, s, cmp)
    ensures r == Sort(s, cmp)
  {
    SortSorted(s, cmp);
    SortStable(s, cmp);
    StableSortIsUnique(r, Sort(s, cmp), cmp);
  }

  /** A comparator that always answers 0 leaves the order alone. */
  lemma {:induction false} SortAllTiesIsIdentity<T>(s: seq<T>, cmp: (T, T) -> int)
    requires forall a, b :: cmp(a, b) == 0
    ensures Sort(s, cmp) == s
  {
    if s != [] {
      SortAllTiesIsIdentity(s[1..], cmp);
      assert s == [s[0]] + s[1..];
    }
  }
}
