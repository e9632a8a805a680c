/** Python's `sorted`: stable, by a strict order. */
module Sorting {

  /** A strict order in which any two incomparable elements compare alike with every third. */
  ghost predicate StrictWeak<T(!new)>(lt: (T, T) -> bool) {
    && (forall a, b :: !(lt(a, b) && lt(b, a)))
    && (forall a, b, c :: lt(a, b) && lt(b, c) ==> lt(a, c))
    && (forall a, b, c :: !lt(a, b) && !lt(b, c) ==> !lt(a, c))
  }

  ghost predicate Sorted<T(!new)>(lt: (T, T) -> bool, xs: seq<T>) {
    forall i, j :: 0 <= i < j < |xs| ==> !lt(xs[j], xs[i])
  }

  ghost predicate Ascending<T(!new)>(lt: (T, T) -> bool, xs: seq<T>) {
    forall i, j :: 0 <= i < j < |xs| ==> lt(xs[i], xs[j])
  }

  /** An element goes before the first one that is not less than it. */
  function InsertBy<T(!new)>(lt: (T, T) -> bool, x: T, xs: seq<T>): seq<T> {
    if xs == [] then [x]
    else if lt(xs[0], x) then [xs[0]] + InsertBy(lt, x, xs[1..])
    else [x] + xs
  }

  function Sort<T(!new)>(lt: (T, T) -> bool, xs: seq<T>): seq<T> {
    if xs == [] then [] else InsertBy(lt, xs[0], Sort(lt, xs[1..]))
  }

  lemma {:induction false} InsertKeeps<T(!new)>(lt: (T, T) -> bool, x: T, xs: seq<T>)
    ensures multiset(InsertBy(lt, x, xs)) == multiset{x} + multiset(xs)
  {
    if xs != [] {
      assert xs == [xs[0]] + xs[1..];
      InsertKeeps(lt, x, xs[1..]);
    }
  }

  lemma {:induction false} SortKeeps<T(!new)>(lt: (T, T) -> bool, xs: seq<T>)
    ensures multiset(Sort(lt, xs)) == multiset(xs)
  {
    if xs != [] {
      assert xs == [xs[0]] + xs[1..];
      InsertKeeps(lt, xs[0], Sort(lt, xs[1..]));
      SortKeeps(lt, xs[1..]);
    }
  }

  lemma SameElements<T(!new)>(xs: seq<T>, ys: seq<T>)
    requires multiset(xs) == multiset(ys)
    ensures |xs| == |ys| && forall x :: x in xs <==> x in ys
  {
    assert |xs| == |multiset(xs)| && |ys| == |multiset(ys)|;
    assert forall x :: x in xs <==> x in multiset(xs);
    assert forall x :: x in ys <==> x in multiset(ys);
  }

  lemma {:induction false} InsertSorts<T(!new)>(lt: (T, T) -> bool, x: T, xs: seq<T>)
    requires StrictWeak(lt) && Sorted(lt, xs)
    ensures Sorted(lt, InsertBy(lt, x, xs))
  {
    if xs != [] {
      if lt(xs[0], x) {
        InsertSorts(lt, x, xs[1..]);
        var r := InsertBy(lt, x, xs[1..]);
        InsertKeeps(lt, x, xs[1..]);
        SameElements(r, [x] + xs[1..]);
        forall j | 0 <= j < |r| ensures !lt(r[j], xs[0]) {
          assert r[j] in [x] + xs[1..];
        }
      } else {
        assert forall j :: 1 <= j < |xs| ==> !lt(xs[j], xs[0]);
      }
    }
  }

  lemma {:induction false} SortSorts<T(!new)>(lt: (T, T) -> bool, xs: seq<T>)
    requires StrictWeak(lt)
    ensures Sorted(lt, Sort(lt, xs))
  {
    if xs != [] {
      SortSorts(lt, xs[1..]);
      InsertSorts(lt, xs[0], Sort(lt, xs[1..]));
    }
  }

  /** A sorted list stays as it is. */
  lemma {:induction false} SortedStays<T(!new)>(lt: (T, T) -> bool, xs: seq<T>)
    requires Sorted(lt, xs)
    ensures Sort(lt, xs) == xs
  {
    if xs != [] {
      SortedStays(lt, xs[1..]);
      assert |xs| > 1 ==> !lt(xs[1], xs[0]);
    }
  }

  /** An ascending list is determined by its elements. */
  lemma {:induction false} AscendingUnique<T(!new)>(lt: (T, T) -> bool, xs: seq<T>, ys: seq<T>)
    requires StrictWeak(lt) && Ascending(lt, xs) && Ascending(lt, ys) && forall z :: z in xs <==> z in ys
    ensures xs == ys
  {
    assert xs != [] ==> xs[0] in xs && xs[0] in ys;
    assert ys != [] ==> ys[0] in ys && ys[0] in xs;
    if xs != [] {
      SameFirst(lt, xs, ys);
      forall z ensures z in xs[1..] <==> z in ys[1..] {
        InTail(lt, xs, z);
        InTail(lt, ys, z);
      }
      AscendingUnique(lt, xs[1..], ys[1..]);
      assert xs == [xs[0]] + xs[1..] && ys == [ys[0]] + ys[1..];
    }
  }

  lemma SameFirst<T(!new)>(lt: (T, T) -> bool, xs: seq<T>, ys: seq<T>)
    requires StrictWeak(lt) && Ascending(lt, xs) && Ascending(lt, ys)
    requires xs != [] && ys != [] && xs[0] in ys && ys[0] in xs
    ensures xs[0] == ys[0]
  {
    var i :| 0 <= i < |ys| && ys[i] == xs[0];
    var j :| 0 <= j < |xs| && xs[j] == ys[0];
  }

  lemma InTail<T(!new)>(lt: (T, T) -> bool, xs: seq<T>, z: T)
    requires StrictWeak(lt) && Ascending(lt, xs) && xs != []
    ensures z in xs[1..] <==> z in xs && z != xs[0]
  {
    assert !lt(xs[0], xs[0]);
    assert xs == [xs[0]] + xs[1..];
    assert forall i :: 1 <= i < |xs| ==> lt(xs[0], xs[i]);
  }

  ghost predicate ToldApart<T(!new)>(lt: (T, T) -> bool, xs: seq<T>) {
    forall i, j :: 0 <= i < j < |xs| ==> lt(xs[i], xs[j]) || lt(xs[j], xs[i])
  }

  lemma SortMembers<T(!new)>(lt: (T, T) -> bool, xs: seq<T>)
    ensures forall z :: z in Sort(lt, xs) <==> z in xs
  {
    SortKeeps(lt, xs);
    SameElements(Sort(lt, xs), xs);
  }

  lemma FrontAscends<T(!new)>(lt: (T, T) -> bool, x: T, xs: seq<T>)
    requires StrictWeak(lt) && Ascending(lt, xs) && (xs != [] ==> lt(x, xs[0]))
    ensures Ascending(lt, [x] + xs)
  {
    forall j | 0 <= j < |xs| ensures lt(x, xs[j]) {
      assert j > 0 ==> lt(xs[0], xs[j]);
    }
  }

  lemma {:induction false} InsertAscends<T(!new)>(lt: (T, T) -> bool, x: T, xs: seq<T>)
    requires StrictWeak(lt) && Ascending(lt, xs) && forall z :: z in xs ==> lt(x, z) || lt(z, x)
    ensures Ascending(lt, InsertBy(lt, x, xs))
  {
    if xs == [] {
    } else if lt(xs[0], x) {
      var tail := xs[1..];
      assert forall z :: z in tail ==> z in xs;
      InsertAscends(lt, x, tail);
      InsertKeeps(lt, x, tail);
      var r := InsertBy(lt, x, tail);
      SameElements(r, [x] + tail);
      assert r != [] ==> r[0] in [x] + tail;
      assert forall j :: 0 <= j < |tail| ==> lt(xs[0], tail[j]);
      hide StrictWeak, Ascending;
      FrontAscends(lt, xs[0], r);
    } else {
      assert xs[0] in xs;
      hide StrictWeak, Ascending;
      FrontAscends(lt, x, xs);
    }
  }

  /** Sorting ascends where the order tells all elements apart. */
  lemma {:induction false} SortAscends<T(!new)>(lt: (T, T) -> bool, xs: seq<T>)
    requires StrictWeak(lt) && ToldApart(lt, xs)
    ensures Ascending(lt, Sort(lt, xs))
  {
    if xs != [] {
      assert ToldApart(lt, xs[1..]);
      SortAscends(lt, xs[1..]);
      SortMembers(lt, xs[1..]);
      InsertAscends(lt, xs[0], Sort(lt, xs[1..]));
    }
  }
}
