/** Python's order on strings, and sorting without repetitions. */
module Ordering {

  /** `a < b` for strings: by code point, a proper prefix first. */
  predicate Less(a: string, b: string) {
    b != [] && (a == [] || a[0] < b[0] || (a[0] == b[0] && Less(a[1..], b[1..])))
  }

  lemma {:induction false} LessTrans(a: string, b: string, c: string)
    requires Less(a, b) && Less(b, c)
    ensures Less(a, c)
  {
    if a != [] && a[0] == b[0] && b[0] == c[0] {
      LessTrans(a[1..], b[1..], c[1..]);
    }
  }

  lemma {:induction false} LessTotal(a: string, b: string)
    ensures Less(a, b) || a == b || Less(b, a)
    ensures !(Less(a, b) && Less(b, a)) && (a == b ==> !Less(a, b))
  {
    if a != [] && b != [] && a[0] == b[0] {
      LessTotal(a[1..], b[1..]);
      assert a == [a[0]] + a[1..] && b == [b[0]] + b[1..];
    }
  }

  lemma LessIsATotalOrder()
    ensures forall a, b :: !(Less(a, b) && Less(b, a)) && (Less(a, b) || a == b || Less(b, a))
    ensures forall a, b, c :: Less(a, b) && Less(b, c) ==> Less(a, c)
  {
    forall a, b ensures !(Less(a, b) && Less(b, a)) && (Less(a, b) || a == b || Less(b, a)) {
      LessTotal(a, b);
    }
    forall a, b, c | Less(a, b) && Less(b, c) ensures Less(a, c) {
      LessTrans(a, b, c);
    }
  }

  ghost predicate Increasing(xs: seq<string>) {
    forall i, j :: 0 <= i < j < |xs| ==> Less(xs[i], xs[j])
  }

  /** Adds a string to an increasing list that may already contain it. */
  function Insert(x: string, xs: seq<string>): seq<string> {
    if xs == [] then [x]
    else if Less(x, xs[0]) then [x] + xs
    else if x == xs[0] then xs
    else [xs[0]] + Insert(x, xs[1..])
  }

  /** `sorted(set(xs))` */
  function SortedSet(xs: seq<string>): seq<string> {
    if xs == [] then [] else Insert(xs[0], SortedSet(xs[1..]))
  }

  lemma {:induction false} InsertAdds(x: string, xs: seq<string>, y: string)
    ensures y in Insert(x, xs) <==> y == x || y in xs
  {
    if xs != [] {
      InsertAdds(x, xs[1..], y);
      assert xs == [xs[0]] + xs[1..];
    }
  }

  lemma {:induction false} InsertKeepsIncreasing(x: string, xs: seq<string>)
    requires Increasing(xs)
    ensures Increasing(Insert(x, xs))
  {
    if xs != [] {
      LessTotal(x, xs[0]);
      if Less(x, xs[0]) {
        forall j | 1 <= j < |xs| ensures Less(x, xs[j]) {
          LessTrans(x, xs[0], xs[j]);
        }
      } else if x != xs[0] {
        InsertKeepsIncreasing(x, xs[1..]);
        var r := Insert(x, xs[1..]);
        forall j | 0 <= j < |r| ensures Less(xs[0], r[j]) {
          InsertAdds(x, xs[1..], r[j]);
        }
      }
    }
  }

  /** The sorted set is strictly increasing and has the elements of the list. */
  lemma {:induction false} SortedSetIs(xs: seq<string>)
    ensures Increasing(SortedSet(xs))
    ensures forall y :: y in SortedSet(xs) <==> y in xs
  {
    if xs != [] {
      SortedSetIs(xs[1..]);
      InsertKeepsIncreasing(xs[0], SortedSet(xs[1..]));
      forall y ensures y in SortedSet(xs) <==> y in xs {
        InsertAdds(xs[0], SortedSet(xs[1..]), y);
        assert xs == [xs[0]] + xs[1..];
      }
    }
  }

  /** An increasing list is determined by its elements. */
  lemma {:induction false} IncreasingUnique(xs: seq<string>, ys: seq<string>)
    requires Increasing(xs) && Increasing(ys) && forall z :: z in xs <==> z in ys
    ensures xs == ys
  {
    assert ys != [] ==> ys[0] in ys && ys[0] in xs;
    if xs != [] {
      assert xs[0] in xs && xs[0] in ys;
      SameHead(xs, ys);
      forall z ensures z in xs[1..] <==> z in ys[1..] {
        TailMembers(xs, z);
        TailMembers(ys, z);
      }
      IncreasingUnique(xs[1..], ys[1..]);
      assert xs == [xs[0]] + xs[1..] && ys == [ys[0]] + ys[1..];
    }
  }

  lemma SameHead(xs: seq<string>, ys: seq<string>)
    requires Increasing(xs) && Increasing(ys) && xs != [] && ys != []
    requires xs[0] in ys && ys[0] in xs
    ensures xs[0] == ys[0]
  {
    var i :| 0 <= i < |ys| && ys[i] == xs[0];
    var j :| 0 <= j < |xs| && xs[j] == ys[0];
    LessTotal(xs[0], ys[0]);
  }

  lemma TailMembers(xs: seq<string>, z: string)
    requires Increasing(xs) && xs != []
    ensures z in xs[1..] <==> z in xs && z != xs[0]
  {
    LessTotal(xs[0], xs[0]);
    assert xs == [xs[0]] + xs[1..];
    forall i | 1 <= i < |xs| ensures xs[i] != xs[0] {
      assert Less(xs[0], xs[i]);
    }
  }
}
