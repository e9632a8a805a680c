/**
 `_uniq_sorted` of backend/app/agents/metadata_extraction_agent.py: one spelling per lower-case key,
 sorted by key. Lower-casing is a parameter.
 */
module UniqSorted {
  import opened Text
  import Ordering
  import Sorting

  function Key(lower: string -> string, x: string): string {
    lower(Strip(x))
  }

  function Keys(lower: string -> string, xs: seq<string>): seq<string> {
    seq(|xs|, i requires 0 <= i < |xs| => lower(xs[i]))
  }

  predicate Blank(x: string) {
    Strip(x) == []
  }

  /** The stripped items whose key no earlier item has. */
  function FirstSpellings(lower: string -> string, items: seq<string>): seq<string> {
    if items == [] then []
    else
      var before, x := FirstSpellings(lower, items[..|items| - 1]), items[|items| - 1];
      if Blank(x) || Key(lower, x) in Keys(lower, before) then before else before + [Strip(x)]
  }

  function ByKey(lower: string -> string): (string, string) -> bool {
    (a, b) => Ordering.Less(lower(a), lower(b))
  }

  function UniqSorted(lower: string -> string, items: seq<string>): seq<string> {
    Sorting.Sort(ByKey(lower), FirstSpellings(lower, items))
  }

  method MakeUniqSorted(lower: string -> string, items: seq<string>) returns (r: seq<string>)
    ensures r == UniqSorted(lower, items)
  {
    var seen := {};
    var out := [];
    for i := 0 to |items|
      invariant out == FirstSpellings(lower, items[..i])
      invariant forall k :: k in seen <==> k in Keys(lower, out)
    {
      assert items[..i + 1][..i] == items[..i];
      var v := Strip(items[i]);
      if v == [] { continue; }
      var key := lower(v);
      if key in seen { continue; }
      KeysGrow(lower, out, v);
      seen := seen + {key};
      out := out + [v];
    }
    assert items[..|items|] == items;
    r := Sorting.Sort(ByKey(lower), out);
  }

  lemma KeysGrow(lower: string -> string, out: seq<string>, v: string)
    ensures Keys(lower, out + [v]) == Keys(lower, out) + [lower(v)]
  {
  }

  // ---------------------------------------------------------------------------
  // Properties
  // ---------------------------------------------------------------------------

  ghost predicate KeysDiffer(lower: string -> string, xs: seq<string>) {
    forall i, j :: 0 <= i < j < |xs| ==> lower(xs[i]) != lower(xs[j])
  }

  /** `x` is an item whose key is `k`. */
  predicate HasKey(lower: string -> string, x: string, k: string) {
    !Blank(x) && Key(lower, x) == k
  }

  lemma NewKeyDiffers(lower: string -> string, before: seq<string>, v: string)
    requires KeysDiffer(lower, before) && lower(v) !in Keys(lower, before)
    ensures KeysDiffer(lower, before + [v])
  {
    assert forall i :: 0 <= i < |before| ==> Keys(lower, before)[i] == lower(before[i]);
  }

  lemma {:induction false} FirstSpellingsDiffer(lower: string -> string, items: seq<string>)
    ensures KeysDiffer(lower, FirstSpellings(lower, items))
  {
    if items != [] {
      var before, x := FirstSpellings(lower, items[..|items| - 1]), items[|items| - 1];
      FirstSpellingsDiffer(lower, items[..|items| - 1]);
      if !Blank(x) && Key(lower, x) !in Keys(lower, before) {
        NewKeyDiffers(lower, before, Strip(x));
      }
      hide Strip, Keys, KeysDiffer;
    }
  }

  lemma OneMoreSpelling(lower: string -> string, items: seq<string>, k: string)
    requires items != []
    ensures var before, x := FirstSpellings(lower, items[..|items| - 1]), items[|items| - 1];
            k in Keys(lower, FirstSpellings(lower, items)) <==> k in Keys(lower, before) || HasKey(lower, x, k)
  {
    hide Strip;
    KeysGrow(lower, FirstSpellings(lower, items[..|items| - 1]), Strip(items[|items| - 1]));
  }

  ghost predicate SomeHasKey(lower: string -> string, items: seq<string>, k: string) {
    exists x :: x in items && HasKey(lower, x, k)
  }

  lemma OneMoreItem(lower: string -> string, init: seq<string>, x: string, k: string)
    ensures SomeHasKey(lower, init + [x], k) <==> SomeHasKey(lower, init, k) || HasKey(lower, x, k)
  {
    hide HasKey;
    assert forall y :: y in init + [x] <==> y in init || y == x;
  }

  lemma {:induction false} SpellingsHaveTheKeys(lower: string -> string, items: seq<string>, k: string)
    ensures k in Keys(lower, FirstSpellings(lower, items)) <==> SomeHasKey(lower, items, k)
  {
    hide HasKey, FirstSpellings, Keys, SomeHasKey;
    if items == [] {
      NoItemsNoKeys(lower, k);
    } else {
      var init, x := items[..|items| - 1], items[|items| - 1];
      OneMoreSpelling(lower, items, k);
      SpellingsHaveTheKeys(lower, init, k);
      OneMoreItem(lower, init, x, k);
      assert items == init + [x];
    }
  }

  lemma NoItemsNoKeys(lower: string -> string, k: string)
    ensures k !in Keys(lower, FirstSpellings(lower, [])) && !SomeHasKey(lower, [], k)
  {
  }

  lemma KeyOrderIsStrict(lower: string -> string)
    ensures Sorting.StrictWeak(ByKey(lower))
  {
    Ordering.LessIsATotalOrder();
    hide Ordering.Less;
  }

  lemma KeysTellApart(lower: string -> string, xs: seq<string>)
    requires KeysDiffer(lower, xs)
    ensures Sorting.ToldApart(ByKey(lower), xs)
  {
    forall i, j | 0 <= i < j < |xs| ensures ByKey(lower)(xs[i], xs[j]) || ByKey(lower)(xs[j], xs[i]) {
      Ordering.LessTotal(lower(xs[i]), lower(xs[j]));
    }
  }

  lemma SortedKeysIncrease(lower: string -> string, out: seq<string>)
    requires KeysDiffer(lower, out)
    ensures Ordering.Increasing(Keys(lower, Sorting.Sort(ByKey(lower), out)))
  {
    hide *;
    KeyOrderIsStrict(lower);
    KeysTellApart(lower, out);
    Sorting.SortAscends(ByKey(lower), out);
    AscendingKeys(lower, Sorting.Sort(ByKey(lower), out));
  }

  lemma AscendingKeys(lower: string -> string, r: seq<string>)
    requires Sorting.Ascending(ByKey(lower), r)
    ensures Ordering.Increasing(Keys(lower, r))
  {
    hide Ordering.Less;
    var ks := Keys(lower, r);
    forall i, j | 0 <= i < j < |ks| ensures Ordering.Less(ks[i], ks[j]) {
      assert ByKey(lower)(r[i], r[j]);
    }
  }

  /** The keys of the result strictly increase, and they are the keys of the items that are not blank. */
  lemma KeysStrictlyIncrease(lower: string -> string, items: seq<string>)
    ensures Ordering.Increasing(Keys(lower, UniqSorted(lower, items)))
    ensures forall k :: k in Keys(lower, UniqSorted(lower, items)) <==> SomeHasKey(lower, items, k)
  {
    var r, out := UniqSorted(lower, items), FirstSpellings(lower, items);
    FirstSpellingsDiffer(lower, items);
    SortedKeysIncrease(lower, out);
    Sorting.SortMembers(ByKey(lower), out);
    hide Sorting.Sort, Ordering.Increasing, FirstSpellings, SomeHasKey, Keys, KeysDiffer, ByKey;
    forall k ensures k in Keys(lower, r) <==> SomeHasKey(lower, items, k) {
      SameKeys(lower, r, out, k);
      SpellingsHaveTheKeys(lower, items, k);
    }
  }

  lemma SameKeys(lower: string -> string, xs: seq<string>, ys: seq<string>, k: string)
    requires forall z :: z in xs <==> z in ys
    ensures k in Keys(lower, xs) <==> k in Keys(lower, ys)
  {
    if k in Keys(lower, xs) {
      var i :| 0 <= i < |xs| && Keys(lower, xs)[i] == k;
      assert xs[i] in ys;
      var j :| 0 <= j < |ys| && ys[j] == xs[i];
      assert Keys(lower, ys)[j] == k;
    }
    if k in Keys(lower, ys) {
      var i :| 0 <= i < |ys| && Keys(lower, ys)[i] == k;
      assert ys[i] in xs;
      var j :| 0 <= j < |xs| && xs[j] == ys[i];
      assert Keys(lower, xs)[j] == k;
    }
  }

  /** The keys depend on neither the order nor the number of the items. */
  lemma KeysForgetOrder(lower: string -> string, xs: seq<string>, ys: seq<string>)
    requires forall z :: z in xs <==> z in ys
    ensures Keys(lower, UniqSorted(lower, xs)) == Keys(lower, UniqSorted(lower, ys))
  {
    KeysStrictlyIncrease(lower, xs);
    KeysStrictlyIncrease(lower, ys);
    var a, b := Keys(lower, UniqSorted(lower, xs)), Keys(lower, UniqSorted(lower, ys));
    hide UniqSorted, Keys, Ordering.Increasing;
    forall k ensures k in a <==> k in b {
    }
    Ordering.IncreasingUnique(a, b);
  }

  /** The spelling kept for a key is that of the first item with the key. */
  lemma FirstSpellingIsKept(lower: string -> string, items: seq<string>, v: string)
    ensures v in UniqSorted(lower, items) <==>
            exists i :: 0 <= i < |items| && FirstWith(lower, items, i) && Strip(items[i]) == v
  {
    Sorting.SortMembers(ByKey(lower), FirstSpellings(lower, items));
    hide FirstWith, Strip, FirstSpellings;
    if v in FirstSpellings(lower, items) {
      var i := SpellingHasAFirst(lower, items, v);
    }
    forall i | 0 <= i < |items| && FirstWith(lower, items, i) && Strip(items[i]) == v
      ensures v in FirstSpellings(lower, items)
    {
      FirstIsASpelling(lower, items, i);
    }
  }

  ghost predicate FirstWith(lower: string -> string, items: seq<string>, i: int)
    requires 0 <= i < |items|
  {
    !Blank(items[i]) && forall j :: 0 <= j < i ==> !HasKey(lower, items[j], Key(lower, items[i]))
  }

  lemma OneMoreFirst(lower: string -> string, items: seq<string>, v: string)
    requires items != []
    ensures var n := |items| - 1;
            v in FirstSpellings(lower, items) <==>
            v in FirstSpellings(lower, items[..n]) || (FirstWith(lower, items, n) && Strip(items[n]) == v)
  {
    hide Strip, Keys, HasKey;
    var n := |items| - 1;
    var init, x := items[..n], items[n];
    SpellingsHaveTheKeys(lower, init, Key(lower, x));
    assert forall i :: 0 <= i < n ==> init[i] == items[i];
    if exists z :: z in init && HasKey(lower, z, Key(lower, x)) {
      var z :| z in init && HasKey(lower, z, Key(lower, x));
      var i :| 0 <= i < n && init[i] == z;
      assert HasKey(lower, items[i], Key(lower, x));
    } else {
      forall i | 0 <= i < n ensures !HasKey(lower, items[i], Key(lower, x)) {
        assert init[i] in init;
      }
    }
  }

  lemma FirstInPrefix(lower: string -> string, items: seq<string>, n: nat, i: nat)
    requires i < n <= |items|
    ensures FirstWith(lower, items[..n], i) <==> FirstWith(lower, items, i)
  {
    hide Blank, HasKey;
    assert forall j :: 0 <= j <= i ==> items[..n][j] == items[j];
  }

  lemma {:induction false} SpellingHasAFirst(lower: string -> string, items: seq<string>, v: string) returns (i: nat)
    requires v in FirstSpellings(lower, items)
    ensures i < |items| && FirstWith(lower, items, i) && Strip(items[i]) == v
  {
    var n := |items| - 1;
    OneMoreFirst(lower, items, v);
    hide FirstWith, Strip;
    if v in FirstSpellings(lower, items[..n]) {
      i := SpellingHasAFirst(lower, items[..n], v);
      FirstInPrefix(lower, items, n, i);
    } else {
      i := n;
    }
  }

  lemma {:induction false} FirstIsASpelling(lower: string -> string, items: seq<string>, i: nat)
    requires i < |items| && FirstWith(lower, items, i)
    ensures Strip(items[i]) in FirstSpellings(lower, items)
  {
    hide FirstWith, Strip, FirstSpellings;
    var n := |items| - 1;
    OneMoreFirst(lower, items, Strip(items[i]));
    if i < n {
      FirstInPrefix(lower, items, n, i);
      FirstIsASpelling(lower, items[..n], i);
    }
  }

  /** Running the result through again changes nothing. */
  lemma UniqSortedTwice(lower: string -> string, items: seq<string>)
    ensures UniqSorted(lower, UniqSorted(lower, items)) == UniqSorted(lower, items)
  {
    var r := UniqSorted(lower, items);
    KeysStrictlyIncrease(lower, items);
    forall v | v in r ensures v != [] && Strip(v) == v {
      FirstSpellingIsKept(lower, items, v);
      var i :| 0 <= i < |items| && FirstWith(lower, items, i) && Strip(items[i]) == v;
      StripTwice(items[i]);
    }
    forall i, j | 0 <= i < j < |r| ensures ByKey(lower)(r[i], r[j]) && lower(r[i]) != lower(r[j]) {
      assert Ordering.Less(Keys(lower, r)[i], Keys(lower, r)[j]);
      Ordering.LessTotal(lower(r[i]), lower(r[j]));
    }
    hide UniqSorted, Strip, Ordering.Less;
    NothingToDrop(lower, r);
    KeyOrderIsStrict(lower);
    Sorting.SortedStays(ByKey(lower), r);
    assert UniqSorted(lower, r) == Sorting.Sort(ByKey(lower), FirstSpellings(lower, r)) by { Unfold(lower, r); }
  }

  lemma Unfold(lower: string -> string, items: seq<string>)
    ensures UniqSorted(lower, items) == Sorting.Sort(ByKey(lower), FirstSpellings(lower, items))
  {
  }

  lemma StripTwice(s: string)
    ensures Strip(Strip(s)) == Strip(s)
  {
    hide LStripBy, RStripBy, IsSpace;
    var t := Strip(s);
    var none: string := [];
    assert none + t + none == t;
    StripIs(none, t, none, IsSpace);
  }

  lemma {:induction false} NothingToDrop(lower: string -> string, xs: seq<string>)
    requires KeysDiffer(lower, xs) && forall v :: v in xs ==> v != [] && Strip(v) == v
    ensures FirstSpellings(lower, xs) == xs
  {
    hide Strip;
    if xs != [] {
      var init, x := xs[..|xs| - 1], xs[|xs| - 1];
      assert init + [x] == xs;
      assert forall v :: v in init ==> v in xs;
      assert x in xs;
      NothingToDrop(lower, init);
      assert lower(x) !in Keys(lower, init);
    }
  }

  /** Which spelling is kept does depend on the order. */
  lemma SpellingDependsOnOrder(lower: string -> string, a: string, b: string)
    requires a != b && lower(a) == lower(b) && Strip(a) == a && Strip(b) == b && a != [] && b != []
    ensures UniqSorted(lower, [a, b]) == [a] && UniqSorted(lower, [b, a]) == [b]
  {
    TwoSpellings(lower, a, b);
    TwoSpellings(lower, b, a);
  }

  lemma TwoSpellings(lower: string -> string, a: string, b: string)
    requires lower(a) == lower(b) && Strip(a) == a && Strip(b) == b && a != [] && b != []
    ensures UniqSorted(lower, [a, b]) == [a]
  {
    hide Strip;
    var none: seq<string> := [];
    assert [a][..0] == none && [a][1..] == none && [a, b][..1] == [a];
    assert Sorting.Sort(ByKey(lower), [a]) == [a];
    assert FirstSpellings(lower, none) == none;
    assert FirstSpellings(lower, [a]) == [a];
    assert Keys(lower, [a])[0] == lower(a);
    assert FirstSpellings(lower, [a, b]) == [a];
  }
}
