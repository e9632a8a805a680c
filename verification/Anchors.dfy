/**
 Titles and anchors of scripts/compile_markdown_docs.py: how a title becomes an anchor, and
 how repeated titles and anchors of one output file are numbered.
 */
module Anchors {
  import opened Basics
  import opened Options
  import opened Text

  // ---------------------------------------------------------------------------
  // From a title to an anchor
  // ---------------------------------------------------------------------------

  /** `str.lower`, which may look at neighbouring characters, and `str.isalnum`. */
  datatype Script = Script(lower: string -> string, alnum: char -> bool)

  predicate IsLower(sc: Script, c: char) {
    sc.lower([c]) == [c]
  }

  ghost predicate AllLower(sc: Script, s: string) {
    forall c :: c in s ==> IsLower(sc, c)
  }

  /** What the anchor laws need of them: lower-casing gives lower-case characters and leaves them as they are. */
  ghost predicate Lawful(sc: Script) {
    && (forall c :: sc.alnum(c) ==> !IsSpace(c))
    && (forall s :: AllLower(sc, sc.lower(s)))
    && (forall s :: AllLower(sc, s) ==> sc.lower(s) == s)
    && IsLower(sc, '-')
    && (forall c :: c in "doc" ==> sc.alnum(c) && IsLower(sc, c))
  }

  lemma SomeScriptIsLawful() returns (sc: Script)
    ensures Lawful(sc)
  {
    sc := Script(s => s, c => 'a' <= c <= 'z');
  }

  predicate Kept(sc: Script, c: char) {
    sc.alnum(c) || c in "-_"
  }

  function Masked(sc: Script, s: string): (r: string)
    ensures |r| == |s| && forall i :: 0 <= i < |s| ==> r[i] == if Kept(sc, s[i]) then s[i] else '-'
  {
    seq(|s|, i requires 0 <= i < |s| => if Kept(sc, s[i]) then s[i] else '-')
  }

  const DASH: string := "-"
  const DASHES: string := "--"

  /** Puts a character in front of a text whose dash runs are single, keeping them single. */
  function Push(c: char, s: string): string {
    if c == '-' && s != [] && s[0] == '-' then s else [c] + s
  }

  /** Every run of dashes becomes one dash. */
  function Collapse(s: string): string {
    if s == [] then [] else Push(s[0], Collapse(s[1..]))
  }

  predicate SingleDashes(s: string) {
    forall i :: 0 <= i < |s| - 1 ==> !(s[i] == '-' && s[i + 1] == '-')
  }

  function AnchorFor(sc: Script, text: string): string {
    var safe := Masked(sc, Replace(sc.lower(Strip(text)), " ", DASH));
    var trimmed := StripBy(Collapse(safe), IsDash);
    if trimmed != [] then trimmed else "doc"
  }

  lemma CollapsePush(c: char, t: string)
    ensures Collapse([c] + t) == Push(c, Collapse(t))
  {
    assert ([c] + t)[1..] == t;
  }

  lemma ReplaceDashes(t: string)
    ensures Replace(DASHES + t, DASHES, DASH) == DASH + Replace(t, DASHES, DASH)
  {
    assert (DASHES + t)[|DASHES|..] == t;
    assert DASHES <= DASHES + t;
  }

  /** A double dash in front becomes one. */
  lemma DashesInFront(t: string)
    requires Collapse(Replace(t, DASHES, DASH)) == Collapse(t) && |Replace(t, DASHES, DASH)| <= |t|
    ensures Collapse(Replace(DASHES + t, DASHES, DASH)) == Collapse(DASHES + t)
    ensures |Replace(DASHES + t, DASHES, DASH)| < |DASHES + t|
  {
    ReplaceDashes(t);
    assert DASH == ['-'] && DASHES + t == ['-'] + (['-'] + t);
    hide Replace, Collapse, DASH, DASHES;
    CollapsePush('-', Replace(t, DASHES, DASH));
    CollapsePush('-', t);
    CollapsePush('-', ['-'] + t);
  }

  /** Another character in front stays. */
  lemma OtherInFront(c: char, t: string)
    requires !(DASHES <= [c] + t)
    requires Collapse(Replace(t, DASHES, DASH)) == Collapse(t) && |Replace(t, DASHES, DASH)| <= |t|
    requires Contains(t, DASHES) ==> |Replace(t, DASHES, DASH)| < |t|
    ensures Collapse(Replace([c] + t, DASHES, DASH)) == Collapse([c] + t)
    ensures |Replace([c] + t, DASHES, DASH)| <= |[c] + t|
    ensures Contains([c] + t, DASHES) ==> |Replace([c] + t, DASHES, DASH)| < |[c] + t|
  {
    assert Replace([c] + t, DASHES, DASH) == [c] + Replace(t, DASHES, DASH) by {
      assert ([c] + t)[1..] == t;
    }
    hide Replace, Collapse, DASH, DASHES;
    CollapsePush(c, Replace(t, DASHES, DASH));
    CollapsePush(c, t);
    if Contains([c] + t, DASHES) {
      FoundBehind(c, t, DASHES);
    }
  }

  lemma FoundBehind(c: char, t: string, pat: string)
    requires Contains([c] + t, pat) && !(pat <= [c] + t)
    ensures Contains(t, pat)
  {
    var s := [c] + t;
    var i :| 0 <= i <= |s| && OccursAt(pat, s, i);
    PrefixOccurs(pat, s, 0);
    assert s[0..] == s;
    assert t[i - 1..i - 1 + |pat|] == s[i..i + |pat|];
    assert OccursAt(pat, t, i - 1);
  }

  lemma {:induction false} ReplacingKeepsCollapse(s: string)
    ensures Collapse(Replace(s, DASHES, DASH)) == Collapse(s)
    ensures |Replace(s, DASHES, DASH)| <= |s| && (Contains(s, DASHES) ==> |Replace(s, DASHES, DASH)| < |s|)
  {
    hide Push, Collapse, DASH;
    if s == [] {
      NothingIsReplaced();
    } else if DASHES <= s {
      hide Replace;
      var t := s[2..];
      assert s == DASHES + t;
      ReplacingKeepsCollapse(t);
      DashesInFront(t);
    } else {
      hide Replace, DASHES;
      var t := s[1..];
      assert s == [s[0]] + t;
      ReplacingKeepsCollapse(t);
      OtherInFront(s[0], t);
    }
  }

  lemma NothingIsReplaced()
    ensures Replace([], DASHES, DASH) == [] && !Contains([], DASHES)
  {
  }

  lemma {:induction false} NothingToCollapse(s: string)
    requires !Contains(s, DASHES)
    ensures Collapse(s) == s
  {
    if s != [] {
      if Contains(s[1..], DASHES) {
        var i :| 0 <= i <= |s[1..]| && OccursAt(DASHES, s[1..], i);
        assert s[i + 1..i + 3] == s[1..][i..i + 2];
        assert OccursAt(DASHES, s, i + 1);
      }
      NothingToCollapse(s[1..]);
      assert !OccursAt(DASHES, s, 0);
      if |s| >= 2 {
        assert s[0..2] == [s[0], s[1]];
      }
    }
  }

  /** The loop of the script: replacing until no double dash is left collapses every run at once. */
  method MakeAnchor(sc: Script, text: string) returns (r: string)
    ensures r == AnchorFor(sc, text)
  {
    var safe := Replace(sc.lower(Strip(text)), " ", DASH);
    safe := Masked(sc, safe);
    ghost var start := safe;
    while Contains(safe, DASHES)
      invariant Collapse(safe) == Collapse(start)
      decreases |safe|
    {
      ReplacingKeepsCollapse(safe);
      safe := Replace(safe, DASHES, DASH);
    }
    NothingToCollapse(safe);
    r := StripBy(safe, IsDash);
    if r == [] {
      r := "doc";
    }
  }

  lemma {:induction false} CollapseIsSingle(s: string)
    ensures SingleDashes(Collapse(s))
    ensures forall c :: c in Collapse(s) ==> c in s
  {
    if s != [] {
      CollapseIsSingle(s[1..]);
    }
  }

  lemma {:induction false} SingleIsCollapsed(s: string)
    requires SingleDashes(s)
    ensures Collapse(s) == s
  {
    if s != [] {
      assert forall i :: 0 <= i < |s| - 2 ==> s[1..][i] == s[i + 1];
      SingleIsCollapsed(s[1..]);
    }
  }

  lemma {:induction false} ReplaceOrigins(s: string, pat: string, rep: string)
    requires pat != []
    ensures forall c :: c in Replace(s, pat, rep) ==> c in s || c in rep
  {
    if s != [] {
      ReplaceOrigins(if pat <= s then s[|pat|..] else s[1..], pat, rep);
    }
  }

  lemma {:induction false} NothingToReplace(s: string, c: char, rep: string)
    requires c !in s
    ensures Replace(s, [c], rep) == s
  {
    if s != [] {
      assert s[..1] == [s[0]];
      NothingToReplace(s[1..], c, rep);
    }
  }

  ghost predicate AllKept(sc: Script, s: string) {
    forall c :: c in s ==> Kept(sc, c) && IsLower(sc, c)
  }

  /** The shape of an anchor: what a link target may look like. */
  ghost predicate IsAnchor(sc: Script, a: string) {
    a != [] && a[0] != '-' && a[|a| - 1] != '-' && SingleDashes(a) && AllKept(sc, a)
  }

  lemma MaskedIsKept(sc: Script, s: string)
    requires Lawful(sc) && AllLower(sc, s)
    ensures AllKept(sc, Masked(sc, s))
  {
    var r := Masked(sc, s);
    forall c | c in r ensures Kept(sc, c) && IsLower(sc, c) {
      var i :| 0 <= i < |r| && r[i] == c;
      assert s[i] in s;
    }
  }

  lemma MiddleKeeps(sc: Script, a: string, r: string, b: string)
    requires SingleDashes(a + r + b) && AllKept(sc, a + r + b)
    ensures SingleDashes(r) && AllKept(sc, r)
  {
    var s := a + r + b;
    forall i | 0 <= i < |r| ensures r[i] == s[|a| + i] && r[i] in s {}
  }

  lemma DocIsAnchor(sc: Script)
    requires Lawful(sc)
    ensures IsAnchor(sc, "doc")
  {
  }

  /** Every anchor is non-empty, has no double dash and no dash at either end, and only kept characters. */
  lemma AnchorsAreClean(sc: Script, text: string)
    requires Lawful(sc)
    ensures IsAnchor(sc, AnchorFor(sc, text))
  {
    var low := sc.lower(Strip(text));
    var safe := Masked(sc, Replace(low, " ", DASH));
    ReplaceOrigins(low, " ", DASH);
    MaskedIsKept(sc, Replace(low, " ", DASH));
    CollapseIsSingle(safe);
    var r := StripBy(Collapse(safe), IsDash);
    var before, after := StripParts(Collapse(safe), IsDash);
    MiddleKeeps(sc, before, r, after);
    DocIsAnchor(sc);
  }

  lemma KeptHasNoSpaces(sc: Script, a: string)
    requires Lawful(sc) && AllKept(sc, a)
    ensures forall c :: c in a ==> !IsSpace(c)
  {
  }

  lemma MaskingKept(sc: Script, a: string)
    requires forall c :: c in a ==> Kept(sc, c)
    ensures Masked(sc, a) == a
  {
    forall i | 0 <= i < |a| ensures Masked(sc, a)[i] == a[i] {
      assert a[i] in a;
    }
  }

  lemma NothingToStrip(s: string, p: char -> bool)
    requires s != [] && !p(s[0]) && !p(s[|s| - 1])
    ensures StripBy(s, p) == s
  {
    StripIs([], s, [], p);
    assert [] + s + [] == s;
  }

  /** A text without outer blanks whose lower-case form is a clean anchor is given that anchor. */
  lemma AnchorOfCleanText(sc: Script, x: string, a: string)
    requires x != [] && !IsSpace(x[0]) && !IsSpace(x[|x| - 1]) && sc.lower(x) == a
    requires a != [] && a[0] != '-' && a[|a| - 1] != '-' && SingleDashes(a)
    requires ' ' !in a && forall c :: c in a ==> Kept(sc, c)
    ensures AnchorFor(sc, x) == a
  {
    NothingToStrip(x, IsSpace);
    NothingToReplace(a, ' ', DASH);
    MaskingKept(sc, a);
    SingleIsCollapsed(a);
    NothingToStrip(a, IsDash);
  }

  /** A clean anchor is its own anchor. */
  lemma CleanAnchorsAreFixed(sc: Script, a: string)
    requires Lawful(sc) && IsAnchor(sc, a)
    ensures AnchorFor(sc, a) == a
  {
    KeptHasNoSpaces(sc, a);
    assert AllLower(sc, a);
    assert a[0] in a && a[|a| - 1] in a;
    assert IsSpace(' ');
    AnchorOfCleanText(sc, a, a);
  }

  lemma AnchoringAnAnchorChangesNothing(sc: Script, text: string)
    requires Lawful(sc)
    ensures AnchorFor(sc, AnchorFor(sc, text)) == AnchorFor(sc, text)
  {
    AnchorsAreClean(sc, text);
    CleanAnchorsAreFixed(sc, AnchorFor(sc, text));
  }

  // ---------------------------------------------------------------------------
  // Numbering repeated names
  // ---------------------------------------------------------------------------

  function Occurrences(xs: seq<string>, x: string): nat {
    if xs == [] then 0
    else Occurrences(xs[..|xs| - 1], x) + if xs[|xs| - 1] == x then 1 else 0
  }

  /** The name given to the element that follows `before`. */
  function Numbered(before: seq<string>, x: string, suffix: nat -> string): string {
    var n := Occurrences(before, x);
    if n == 0 then x else x + suffix(n + 1)
  }

  function Uniquify(xs: seq<string>, suffix: nat -> string): (r: seq<string>)
    ensures |r| == |xs|
    ensures forall i :: 0 <= i < |xs| ==> r[i] == Numbered(xs[..i], xs[i], suffix)
  {
    seq(|xs|, i requires 0 <= i < |xs| => Numbered(xs[..i], xs[i], suffix))
  }

  function TitleSuffix(k: nat): string {
    " (" + Dec(k) + ")"
  }

  function AnchorSuffix(k: nat): string {
    "-" + Dec(k)
  }

  /** A name of the list reads like the number given to a repetition of another one. */
  ghost predicate Clash(xs: seq<string>, suffix: nat -> string) {
    exists i, j, k: nat :: 0 <= i < |xs| && 0 <= j < |xs| && 2 <= k <= Occurrences(xs, xs[j]) && xs[i] == xs[j] + suffix(k)
  }

  /** A name and its number can be read back. */
  ghost predicate Readable(suffix: nat -> string) {
    && (forall k :: suffix(k) != [])
    && (forall a: string, b: string, k, l :: a + suffix(k) == b + suffix(l) ==> a == b && k == l)
  }

  /** The last non-digit of a text and the numeral after it are determined by the text. */
  lemma LastMarkSplits(a: string, b: string, mark: char, k: nat, l: nat)
    requires !IsDigit(mark) && a + [mark] + Dec(k) == b + [mark] + Dec(l)
    ensures a == b && k == l
  {
    var s := a + [mark] + Dec(k);
    forall i | |a| < i < |s| ensures IsDigit(s[i]) {
      assert s[i] == Dec(k)[i - |a| - 1];
    }
    forall i | |b| < i < |s| ensures IsDigit(s[i]) {
      assert s[i] == Dec(l)[i - |b| - 1];
    }
    assert s[|a|] == mark && s[|b|] == mark;
    assert a == s[..|a|] && b == s[..|b|];
    assert Dec(k) == s[|a| + 1..] && Dec(l) == s[|b| + 1..];
    DecInjective(k, l);
  }

  lemma AnchorSuffixIsReadable()
    ensures Readable(AnchorSuffix)
  {
    forall a: string, b: string, k: nat, l: nat | a + AnchorSuffix(k) == b + AnchorSuffix(l)
      ensures a == b && k == l
    {
      assert a + ['-'] + Dec(k) == a + AnchorSuffix(k) && b + ['-'] + Dec(l) == b + AnchorSuffix(l);
      LastMarkSplits(a, b, '-', k, l);
    }
  }

  lemma TitleSuffixIsReadable()
    ensures Readable(TitleSuffix)
  {
    forall a: string, b: string, k: nat, l: nat | a + TitleSuffix(k) == b + TitleSuffix(l)
      ensures a == b && k == l
    {
      var s, t := a + TitleSuffix(k), b + TitleSuffix(l);
      assert s[..|s| - 1] == (a + " ") + ['('] + Dec(k);
      assert t[..|t| - 1] == (b + " ") + ['('] + Dec(l);
      LastMarkSplits(a + " ", b + " ", '(', k, l);
      assert (a + " ")[..|a|] == a && (b + " ")[..|b|] == b;
    }
  }

  lemma {:induction false} OccurrencesGrow(xs: seq<string>, x: string, n: nat)
    requires n <= |xs|
    ensures Occurrences(xs[..n], x) <= Occurrences(xs, x)
  {
    if n < |xs| {
      assert xs[..|xs| - 1][..n] == xs[..n];
      OccurrencesGrow(xs[..|xs| - 1], x, n);
    } else {
      assert xs[..n] == xs;
    }
  }

  /** The `k`-th occurrence of a name, counting from one. */
  lemma {:induction false} Nth(xs: seq<string>, x: string, k: nat) returns (p: nat)
    requires 1 <= k <= Occurrences(xs, x)
    ensures p < |xs| && xs[p] == x && Occurrences(xs[..p], x) == k - 1
  {
    var init := xs[..|xs| - 1];
    if k <= Occurrences(init, x) {
      p := Nth(init, x, k);
      assert init[..p] == xs[..p];
    } else {
      p := |xs| - 1;
    }
  }

  /** Two occurrences of a name have different numbers. */
  lemma OccurrenceNumbersDiffer(xs: seq<string>, i: nat, j: nat)
    requires i < j < |xs| && xs[i] == xs[j]
    ensures Occurrences(xs[..i], xs[i]) < Occurrences(xs[..j], xs[i])
  {
    assert xs[..j][..i + 1] == xs[..i + 1] && xs[..i + 1][..i] == xs[..i];
    OccurrencesGrow(xs[..j], xs[i], i + 1);
  }

  lemma NumberIsWithin(xs: seq<string>, i: nat)
    requires i < |xs|
    ensures Occurrences(xs[..i], xs[i]) < Occurrences(xs, xs[i])
  {
    assert xs[..i + 1][..i] == xs[..i];
    OccurrencesGrow(xs, xs[i], i + 1);
  }

  lemma EqualNamesClash(xs: seq<string>, suffix: nat -> string, i: nat, j: nat)
    requires Readable(suffix) && i < j < |xs|
    requires Uniquify(xs, suffix)[i] == Uniquify(xs, suffix)[j]
    ensures Clash(xs, suffix)
  {
    var m, n := Occurrences(xs[..i], xs[i]), Occurrences(xs[..j], xs[j]);
    NumberIsWithin(xs, i);
    NumberIsWithin(xs, j);
    if xs[i] == xs[j] {
      OccurrenceNumbersDiffer(xs, i, j);
    } else if m == 0 {
      assert xs[i] == xs[j] + suffix(n + 1);
    } else if n == 0 {
      assert xs[j] == xs[i] + suffix(m + 1);
    }
  }

  lemma RepeatsAName(xs: seq<string>, suffix: nat -> string, x: string, y: string, k: nat)
    requires x == y + suffix(k) && suffix(k) != []
    requires Occurrences(xs, x) >= 1 && 2 <= k <= Occurrences(xs, y)
    ensures !Distinct(Uniquify(xs, suffix))
  {
    var p := Nth(xs, x, 1);
    var q := Nth(xs, y, k);
    var r := Uniquify(xs, suffix);
    assert r[p] == x && r[q] == x;
    assert |x| > |y|;
    assert p != q;
  }

  lemma ClashRepeatsAName(xs: seq<string>, suffix: nat -> string)
    requires Readable(suffix) && Clash(xs, suffix)
    ensures !Distinct(Uniquify(xs, suffix))
  {
    var i, j, k: nat :| 0 <= i < |xs| && 0 <= j < |xs| && 2 <= k <= Occurrences(xs, xs[j]) && xs[i] == xs[j] + suffix(k);
    NumberIsWithin(xs, i);
    RepeatsAName(xs, suffix, xs[i], xs[j], k);
  }

  /** The numbered names of a file are pairwise distinct exactly when no name of the file reads like
      the number of a repetition of another one. */
  lemma DistinctUnlessClash(xs: seq<string>, suffix: nat -> string)
    requires Readable(suffix)
    ensures Distinct(Uniquify(xs, suffix)) <==> !Clash(xs, suffix)
  {
    if Clash(xs, suffix) {
      ClashRepeatsAName(xs, suffix);
    } else {
      forall i, j | 0 <= i < j < |xs| ensures Uniquify(xs, suffix)[i] != Uniquify(xs, suffix)[j] {
        if Uniquify(xs, suffix)[i] == Uniquify(xs, suffix)[j] {
          EqualNamesClash(xs, suffix, i, j);
        }
      }
    }
  }

  // ---------------------------------------------------------------------------
  // The titles and anchors of one output file
  // ---------------------------------------------------------------------------

  /** The title a document asks for; `heading` is what its content yields, if anything. */
  function RawTitle(heading: Option<string>, number: nat): string {
    if heading.Some? && heading.value != [] then heading.value else "Document " + Dec(number)
  }

  function RawTitles(headings: seq<Option<string>>): (r: seq<string>)
    ensures |r| == |headings| && forall i :: 0 <= i < |r| ==> r[i] == RawTitle(headings[i], i + 1)
  {
    seq(|headings|, i requires 0 <= i < |headings| => RawTitle(headings[i], i + 1))
  }

  function BaseAnchors(sc: Script, titles: seq<string>): (r: seq<string>)
    ensures |r| == |titles| && forall i :: 0 <= i < |r| ==> r[i] == AnchorFor(sc, titles[i])
  {
    seq(|titles|, i requires 0 <= i < |titles| => AnchorFor(sc, titles[i]))
  }

  function Titles(headings: seq<Option<string>>): (r: seq<string>)
    ensures |r| == |headings|
  {
    Uniquify(RawTitles(headings), TitleSuffix)
  }

  function AnchorList(sc: Script, headings: seq<Option<string>>): (r: seq<string>)
    ensures |r| == |headings|
  {
    Uniquify(BaseAnchors(sc, Titles(headings)), AnchorSuffix)
  }

  function CountIn(used: map<string, nat>, x: string): nat {
    if x in used then used[x] else 0
  }

  /** `used` holds how often each name occurs in `xs`. */
  ghost predicate CountsOf(used: map<string, nat>, xs: seq<string>) {
    forall x :: CountIn(used, x) == Occurrences(xs, x)
  }

  lemma CountOneMore(used: map<string, nat>, xs: seq<string>, x: string)
    requires CountsOf(used, xs)
    ensures CountsOf(used[x := CountIn(used, x) + 1], xs + [x])
  {
    assert (xs + [x])[..|xs|] == xs;
    forall y ensures CountIn(used[x := CountIn(used, x) + 1], y) == Occurrences(xs + [x], y) {
      assert CountIn(used, y) == Occurrences(xs, y);
    }
  }

  /** One use of a dictionary of uses: `xs` are the names seen before. */
  method TakeName(used: map<string, nat>, ghost xs: seq<string>, x: string, suffix: nat -> string)
    returns (used': map<string, nat>, name: string)
    requires CountsOf(used, xs)
    ensures CountsOf(used', xs + [x]) && name == Numbered(xs, x, suffix)
  {
    var count := CountIn(used, x);
    used' := used[x := count + 1];
    CountOneMore(used, xs, x);
    name := if count > 0 then x + suffix(count + 1) else x;
  }

  lemma OneMoreTaken(r: seq<string>, i: nat, name: string)
    requires i < |r| && name == r[i]
    ensures r[..i] + [name] == r[..i + 1]
  {
  }

  lemma NothingUsed()
    ensures CountsOf(map[], [])
  {
  }

  /** The loop of `build_titles`, with its two dictionaries of uses. */
  method BuildTitles(sc: Script, headings: seq<Option<string>>) returns (titles: seq<string>, anchors: seq<string>)
    ensures titles == Titles(headings)
    ensures anchors == AnchorList(sc, headings)
  {
    hide AnchorFor, Numbered, CountsOf, RawTitle, TitleSuffix, AnchorSuffix;
    titles, anchors := [], [];
    NothingUsed();
    var usedTitles: map<string, nat> := map[];
    var usedAnchors: map<string, nat> := map[];
    ghost var raws := RawTitles(headings);
    ghost var allTitles := Titles(headings);
    ghost var bases := BaseAnchors(sc, allTitles);
    ghost var allAnchors := AnchorList(sc, headings);
    for i := 0 to |headings|
      invariant titles == allTitles[..i] && anchors == allAnchors[..i]
      invariant CountsOf(usedTitles, raws[..i])
      invariant CountsOf(usedAnchors, bases[..i])
    {
      var title, anchor;
      usedTitles, title := TakeName(usedTitles, raws[..i], RawTitle(headings[i], i + 1), TitleSuffix);
      OneMoreTaken(raws, i, raws[i]);
      OneMoreTaken(allTitles, i, title);
      anchor := MakeAnchor(sc, title);
      OneMoreTaken(bases, i, anchor);
      usedAnchors, anchor := TakeName(usedAnchors, bases[..i], anchor, AnchorSuffix);
      OneMoreTaken(allAnchors, i, anchor);
      titles := titles + [title];
      anchors := anchors + [anchor];
    }
  }

  /** The two "used" counters make titles, and then anchors, unique exactly when nothing clashes. */
  lemma AnchorsDistinctUnlessClash(sc: Script, headings: seq<Option<string>>)
    ensures Distinct(Titles(headings)) <==> !Clash(RawTitles(headings), TitleSuffix)
    ensures Distinct(AnchorList(sc, headings)) <==> !Clash(BaseAnchors(sc, Titles(headings)), AnchorSuffix)
  {
    TitleSuffixIsReadable();
    AnchorSuffixIsReadable();
    DistinctUnlessClash(RawTitles(headings), TitleSuffix);
    DistinctUnlessClash(BaseAnchors(sc, Titles(headings)), AnchorSuffix);
  }

  /** Titles are not always unique: the third heading of this file reads like the number of the second. */
  lemma NumberedTitleCanClash()
    ensures !Distinct(Titles([Some("A"), Some("A"), Some("A (2)")]))
  {
    var xs := ["A", "A", "A (2)"];
    var r := Titles([Some("A"), Some("A"), Some("A (2)")]);
    assert RawTitles([Some("A"), Some("A"), Some("A (2)")]) == xs;
    assert xs[..1] == ["A"] && xs[..2] == ["A", "A"] && ["A"][..0] == [] && ["A", "A"][..1] == ["A"];
    assert Occurrences(["A"], "A") == 1;
    assert Occurrences(["A", "A"], "A (2)") == 0 by {
      assert Occurrences(["A"], "A (2)") == 0;
    }
    assert r[1] == "A" + TitleSuffix(2) == "A (2)";
    assert r[1] == r[2];
  }

  lemma FirstOfDistinctNames(xs: seq<string>, suffix: nat -> string)
    requires Distinct(xs)
    ensures Uniquify(xs, suffix) == xs
  {
    forall i | 0 <= i < |xs| ensures Uniquify(xs, suffix)[i] == xs[i] {
      NotBefore(xs[..i], xs[i]);
    }
  }

  lemma {:induction false} NotBefore(xs: seq<string>, x: string)
    requires x !in xs
    ensures Occurrences(xs, x) == 0
  {
    if xs != [] {
      NotBefore(xs[..|xs| - 1], x);
    }
  }

  lemma TitlesOfThree(x: string, y: string, z: string)
    requires x != [] && y != [] && z != [] && x != y && y != z && x != z
    ensures Titles([Some(x), Some(y), Some(z)]) == [x, y, z]
  {
    assert RawTitles([Some(x), Some(y), Some(z)]) == [x, y, z];
    FirstOfDistinctNames([x, y, z], TitleSuffix);
  }

  lemma BasesAre(sc: Script, titles: seq<string>, bases: seq<string>)
    requires |titles| == |bases| && forall i :: 0 <= i < |bases| ==> AnchorFor(sc, titles[i]) == bases[i]
    ensures BaseAnchors(sc, titles) == bases
  {
  }

  /** Nor are anchors: for every letter `u` with small letter `l`, the headings `u`, `l` and `l-2` are
      distinct titles, but the second and third get the same anchor. */
  lemma NumberedAnchorCanClash(sc: Script, u: char, l: char, third: string)
    requires Lawful(sc) && u != l && sc.lower([u]) == [l] && sc.alnum(l)
    requires !IsSpace(u) && !IsSpace(l) && l != '-'
    requires sc.alnum('2') && IsLower(sc, '2')
    requires third == [l, '-', '2']
    ensures var headings := [Some([u]), Some([l]), Some(third)];
            Distinct(Titles(headings)) && !Distinct(AnchorList(sc, headings))
  {
    hide AnchorFor, AnchorList, BaseAnchors, RawTitles, Titles, Uniquify, Occurrences, AnchorSuffix, IsSpace;
    var headings := [Some([u]), Some([l]), Some(third)];
    AnchorListIs(sc, headings);
    TitlesOfThree([u], [l], third);
    BasesOfThree(sc, u, l, third);
    SecondAnchor(l, third);
    RepeatedName([l], third);
  }

  lemma AnchorListIs(sc: Script, headings: seq<Option<string>>)
    ensures AnchorList(sc, headings) == Uniquify(BaseAnchors(sc, Titles(headings)), AnchorSuffix)
  {
  }

  lemma SecondAnchor(l: char, second: string)
    requires second == [l, '-', '2']
    ensures second == [l] + AnchorSuffix(2)
  {
  }

  lemma BasesOfThree(sc: Script, u: char, l: char, third: string)
    requires Lawful(sc) && sc.lower([u]) == [l] && sc.alnum(l)
    requires !IsSpace(u) && !IsSpace(l) && l != '-'
    requires sc.alnum('2') && IsLower(sc, '2')
    requires third == [l, '-', '2']
    ensures BaseAnchors(sc, [[u], [l], third]) == [[l], [l], third]
  {
    hide Lawful, AnchorFor, IsSpace;
    LetterIsLower(sc, u, l);
    ShortAnchor(sc, u, l);
    ShortAnchor(sc, l, l);
    AnchorWithNumber(sc, l, third);
    hide *;
    var titles, bases := [[u], [l], third], [[l], [l], third];
    assert forall i :: 0 <= i < 3 ==> AnchorFor(sc, titles[i]) == bases[i];
    BasesAre(sc, titles, bases);
  }

  lemma LetterIsLower(sc: Script, u: char, l: char)
    requires Lawful(sc) && sc.lower([u]) == [l] && !IsSpace(l)
    ensures IsLower(sc, l) && l != ' '
  {
    assert AllLower(sc, sc.lower([u])) && l in sc.lower([u]);
    assert IsSpace(' ');
  }

  lemma RepeatedName(x: string, numbered: string)
    requires numbered == x + AnchorSuffix(2)
    ensures !Distinct(Uniquify([x, x, numbered], AnchorSuffix))
  {
    var ys := [x, x, numbered];
    assert ys[..2] == [x, x] && [x, x][..1] == [x] && [x][..0] == [];
    assert |numbered| > |x|;
    assert Occurrences([x], x) == 1 && Occurrences([x], numbered) == 0;
    assert Occurrences([x, x], x) == 2 && Occurrences([x, x], numbered) == 0;
    RepeatsAName(ys, AnchorSuffix, numbered, x, 2);
  }

  lemma ShortAnchor(sc: Script, x: char, a: char)
    requires !IsSpace(x) && sc.lower([x]) == [a] && sc.alnum(a) && a != '-' && a != ' '
    ensures AnchorFor(sc, [x]) == [a]
  {
    assert [x][1..] == [];
    AnchorOfCleanText(sc, [x], [a]);
  }

  lemma AnchorWithNumber(sc: Script, l: char, x: string)
    requires x == [l, '-', '2'] && l != '-' && l != ' ' && !IsSpace(l)
    requires Lawful(sc) && sc.alnum(l) && IsLower(sc, l) && sc.alnum('2') && IsLower(sc, '2')
    ensures AnchorFor(sc, x) == x
  {
    assert AllLower(sc, x);
    AnchorOfCleanText(sc, x, x);
  }
}
