/** The string operations of Python that the modelled scripts use. */
module Text {

  // ---------------------------------------------------------------------------
  // Stripping
  // ---------------------------------------------------------------------------

  /** The characters that `str.isspace` accepts and `str.strip` removes. */
  predicate IsSpace(c: char) {
    var n := c as int;
    || 9 <= n <= 13 || 28 <= n <= 32 || n == 0x85 || n == 0xA0 || n == 0x1680
    || 0x2000 <= n <= 0x200A || n == 0x2028 || n == 0x2029 || n == 0x202F || n == 0x205F || n == 0x3000
  }

  predicate IsDash(c: char) {
    c == '-'
  }

  predicate IsPad(c: char) {
    c == '='
  }

  predicate All(s: string, p: char -> bool) {
    forall i :: 0 <= i < |s| ==> p(s[i])
  }

  /** `s` does not end in a character that satisfies `p`. */
  predicate EndsOutside(s: string, p: char -> bool) {
    s == [] || !p(s[|s| - 1])
  }

  predicate StartsOutside(s: string, p: char -> bool) {
    s == [] || !p(s[0])
  }

  /** `s.rstrip(...)`: the longest prefix that does not end in a character to be stripped. */
  function RStripBy(s: string, p: char -> bool): (r: string)
    ensures r <= s && EndsOutside(r, p) && All(s[|r|..], p)
  {
    if EndsOutside(s, p) then s else RStripBy(s[..|s| - 1], p)
  }

  lemma OneMoreInFront(s: string, n: nat, p: char -> bool)
    requires 1 <= n <= |s| && p(s[0]) && All(s[1..][..n - 1], p)
    ensures All(s[..n], p) && s[n..] == s[1..][n - 1..]
  {
    var t := s[1..][..n - 1];
    forall i | 0 <= i < n ensures p(s[i]) {
      assert i > 0 ==> s[i] == t[i - 1];
    }
  }

  /** `s.lstrip(...)`: the longest suffix that does not start with a character to be stripped. */
  function LStripBy(s: string, p: char -> bool): (r: string)
    ensures |r| <= |s| && r == s[|s| - |r|..] && StartsOutside(r, p) && All(s[..|s| - |r|], p)
  {
    if StartsOutside(s, p) then s
    else
      var r := LStripBy(s[1..], p);
      OneMoreInFront(s, |s| - |r|, p);
      r
  }

  function StripBy(s: string, p: char -> bool): (r: string)
    ensures EndsOutside(r, p) && StartsOutside(r, p)
  {
    var t := LStripBy(s, p);
    var r := RStripBy(t, p);
    r
  }

  function RStrip(s: string): string {
    RStripBy(s, IsSpace)
  }

  function Strip(s: string): string {
    StripBy(s, IsSpace)
  }

  /** Only one prefix leaves a strippable rest and cannot be stripped further. */
  lemma RStripIs(r: string, w: string, p: char -> bool)
    requires EndsOutside(r, p) && All(w, p)
    ensures RStripBy(r + w, p) == r
  {
    hide RStripBy;
    var s := r + w;
    var t := RStripBy(s, p);
    forall i | |t| <= i < |s| ensures p(s[i]) {
      assert s[i] == s[|t|..][i - |t|];
    }
    forall i | |r| <= i < |s| ensures p(s[i]) {
      assert s[i] == w[i - |r|];
    }
    assert t == s[..|t|] && r == s[..|r|];
  }

  lemma LStripIs(w: string, r: string, p: char -> bool)
    requires StartsOutside(r, p) && All(w, p)
    ensures LStripBy(w + r, p) == r
  {
    hide LStripBy;
    var s := w + r;
    var t := LStripBy(s, p);
    var n := |s| - |t|;
    forall i | 0 <= i < n ensures p(s[i]) {
      assert s[i] == s[..n][i];
    }
    assert t == s[n..] && r == s[|w|..];
  }

  /** What is stripped from both ends, and what stays. */
  lemma StripParts(s: string, p: char -> bool) returns (a: string, b: string)
    ensures s == a + StripBy(s, p) + b && All(a, p) && All(b, p)
  {
    hide LStripBy, RStripBy;
    var t := LStripBy(s, p);
    a := s[..|s| - |t|];
    b := t[|StripBy(s, p)|..];
  }

  lemma StripIs(a: string, r: string, b: string, p: char -> bool)
    requires All(a, p) && All(b, p) && StartsOutside(r, p) && EndsOutside(r, p)
    ensures StripBy(a + r + b, p) == r
  {
    hide LStripBy, RStripBy;
    if r == [] {
      LStripIs(a + b, [], p);
      assert a + r + b == (a + b) + [];
    } else {
      LStripIs(a, r + b, p);
      assert a + r + b == a + (r + b);
      RStripIs(r, b, p);
    }
  }

  // ---------------------------------------------------------------------------
  // Occurrences, replace and split
  // ---------------------------------------------------------------------------

  predicate OccursAt(t: string, s: string, i: int) {
    0 <= i <= |s| - |t| && s[i..i + |t|] == t
  }

  /** `t in s` */
  predicate Contains(s: string, t: string) {
    exists i :: 0 <= i <= |s| && OccursAt(t, s, i)
  }

  lemma PrefixOccurs(t: string, s: string, i: int)
    requires 0 <= i <= |s|
    ensures t <= s[i..] <==> OccursAt(t, s, i)
  {
    if |t| <= |s| - i {
      assert s[i..][..|t|] == s[i..i + |t|];
    }
  }

  lemma OccursInPrefix(t: string, a: string, s: string, i: int)
    requires a <= s && !OccursAt(t, s, i)
    ensures !OccursAt(t, a, i)
  {
    if 0 <= i <= |a| - |t| {
      assert a[i..i + |t|] == s[i..i + |t|];
    }
  }

  lemma ContainsMiddle(a: string, t: string, b: string)
    ensures Contains(a + t + b, t)
  {
    assert (a + t + b)[|a|..|a| + |t|] == t;
    assert OccursAt(t, a + t + b, |a|);
  }

  lemma ContainsTrans(s: string, t: string, u: string)
    requires Contains(s, t) && Contains(t, u)
    ensures Contains(s, u)
  {
    var i :| 0 <= i <= |s| && OccursAt(t, s, i);
    var j :| 0 <= j <= |t| && OccursAt(u, t, j);
    forall k | 0 <= k < |u| ensures s[i + j + k] == u[k] {
      assert s[i..i + |t|][j + k] == t[j..j + |u|][k];
    }
    assert s[i + j..i + j + |u|] == u;
    assert OccursAt(u, s, i + j);
  }

  /** `s.replace(pat, rep)`: left to right, without overlaps. */
  function Replace(s: string, pat: string, rep: string): string
    requires pat != []
  {
    if s == [] then []
    else if pat <= s then rep + Replace(s[|pat|..], pat, rep)
    else [s[0]] + Replace(s[1..], pat, rep)
  }

  /** `s.split(sep)` */
  function Split(s: string, sep: string): (r: seq<string>)
    requires sep != []
    ensures r != []
  {
    if s == [] then [[]]
    else if sep <= s then [[]] + Split(s[|sep|..], sep)
    else
      var r := Split(s[1..], sep);
      [[s[0]] + r[0]] + r[1..]
  }

  /** `sep.join(parts)` */
  function Join(sep: string, parts: seq<string>): string {
    if parts == [] then []
    else if |parts| == 1 then parts[0]
    else parts[0] + sep + Join(sep, parts[1..])
  }

  /** The first `sep` in `a + sep` is the one at the end. */
  ghost predicate FirstSepAtEnd(a: string, sep: string) {
    forall i :: 0 <= i < |a| ==> !(sep <= (a + sep)[i..])
  }

  lemma FirstSepBehind(c: char, tail: string, sep: string, b: string)
    requires sep != [] && FirstSepAtEnd([c] + tail, sep)
    ensures FirstSepAtEnd(tail, sep) && !(sep <= [c] + (tail + sep + b))
  {
    var a := [c] + tail;
    forall i | 0 <= i < |tail| ensures !(sep <= (tail + sep)[i..]) {
      assert (tail + sep)[i..] == (a + sep)[i + 1..];
    }
    assert (a + sep)[0..] == a + sep;
    ThreeInFront(c, tail, sep, b);
    assert sep <= a + sep + b ==> sep <= a + sep;
  }

  lemma ThreeInFront(c: char, x: string, y: string, z: string)
    ensures [c] + x + y + z == [c] + (x + y + z)
  {
  }

  lemma HeadGrows(c: char, x: string, rest: seq<string>)
    ensures [[c] + ([x] + rest)[0]] + ([x] + rest)[1..] == [[c] + x] + rest
  {
  }

  lemma SplitCons(c: char, s: string, sep: string)
    requires sep != [] && !(sep <= [c] + s)
    ensures Split([c] + s, sep) == [[c] + Split(s, sep)[0]] + Split(s, sep)[1..]
  {
    assert ([c] + s)[1..] == s;
  }

  lemma {:induction false} SplitAtFirst(a: string, sep: string, b: string)
    requires sep != [] && FirstSepAtEnd(a, sep)
    ensures Split(a + sep + b, sep) == [a] + Split(b, sep)
  {
    if a == [] {
      assert a + sep + b == sep + b && (sep + b)[|sep|..] == b;
    } else {
      hide FirstSepAtEnd, Split;
      var c, tail := a[0], a[1..];
      assert a == [c] + tail;
      FirstSepBehind(c, tail, sep, b);
      SplitAtFirst(tail, sep, b);
      SplitCons(c, tail + sep + b, sep);
      HeadGrows(c, tail, Split(b, sep));
      ThreeInFront(c, tail, sep, b);
    }
  }

  lemma {:induction false} SplitNoSep(a: string, sep: string)
    requires sep != [] && !Contains(a, sep)
    ensures Split(a, sep) == [a]
  {
    if a != [] {
      if sep <= a {
        assert OccursAt(sep, a, 0);
      }
      forall i | 0 <= i <= |a[1..]| ensures !OccursAt(sep, a[1..], i) {
        assert !OccursAt(sep, a, i + 1);
        assert i + |sep| <= |a| - 1 ==> a[1..][i..i + |sep|] == a[i + 1..i + 1 + |sep|];
      }
      SplitNoSep(a[1..], sep);
      assert [a[0]] + a[1..] == a;
    }
  }

  ghost predicate IsFirstOccurrence(s: string, sep: string, i: int) {
    OccursAt(sep, s, i) && forall j :: 0 <= j < i ==> !OccursAt(sep, s, j)
  }

  lemma FirstOccurrence(s: string, sep: string) returns (i: nat)
    requires Contains(s, sep)
    ensures IsFirstOccurrence(s, sep, i)
  {
    i := 0;
    while !OccursAt(sep, s, i)
      invariant i <= |s| && forall j :: 0 <= j < i ==> !OccursAt(sep, s, j)
      decreases |s| - i
    {
      assert exists j :: i < j <= |s| && OccursAt(sep, s, j);
      i := i + 1;
    }
  }

  lemma CutAtFirst(s: string, sep: string, i: int)
    requires sep != [] && IsFirstOccurrence(s, sep, i)
    ensures FirstSepAtEnd(s[..i], sep) && !Contains(s[..i], sep)
  {
    var h := s[..i];
    assert h + sep <= s by {
      assert s[..i + |sep|] == h + sep;
    }
    forall j | 0 <= j < |h| ensures !(sep <= (h + sep)[j..]) {
      OccursInPrefix(sep, h + sep, s, j);
      PrefixOccurs(sep, h + sep, j);
    }
    forall j | 0 <= j < |h| ensures !OccursAt(sep, h, j) {
      OccursInPrefix(sep, h, s, j);
    }
  }

  /** The first piece of a split is what precedes the first separator. */
  lemma SplitHead(s: string, sep: string) returns (rest: string)
    requires sep != []
    ensures var h := Split(s, sep)[0];
            && !Contains(h, sep)
            && (if Contains(s, sep) then s == h + sep + rest else s == h)
  {
    rest := [];
    if !Contains(s, sep) {
      SplitNoSep(s, sep);
    } else {
      var i := FirstOccurrence(s, sep);
      rest := s[i + |sep|..];
      assert s == s[..i] + sep + rest;
      CutAtFirst(s, sep, i);
      SplitAtFirst(s[..i], sep, rest);
    }
  }

  lemma JoinCons(sep: string, x: string, rest: seq<string>)
    requires rest != []
    ensures Join(sep, [x] + rest) == x + sep + Join(sep, rest)
  {
    assert ([x] + rest)[1..] == rest;
  }

  lemma JoinHeadGrows(c: char, r: seq<string>, sep: string)
    requires r != []
    ensures Join(sep, [[c] + r[0]] + r[1..]) == [c] + Join(sep, r)
  {
    if |r| > 1 {
      JoinCons(sep, [c] + r[0], r[1..]);
      JoinCons(sep, r[0], r[1..]);
      assert r == [r[0]] + r[1..];
      hide Join;
      ThreeInFront(c, r[0], sep, Join(sep, r[1..]));
    }
  }

  lemma {:induction false} JoinSplit(s: string, sep: string)
    requires sep != []
    ensures Join(sep, Split(s, sep)) == s
  {
    if s != [] {
      if sep <= s {
        var rest := s[|sep|..];
        JoinSplit(rest, sep);
        assert Split(s, sep) == [[]] + Split(rest, sep);
        hide Split, Join;
        JoinCons(sep, [], Split(rest, sep));
        assert s == [] + sep + rest;
      } else {
        var rest := s[1..];
        JoinSplit(rest, sep);
        var r := Split(rest, sep);
        assert Split(s, sep) == [[s[0]] + r[0]] + r[1..];
        hide Split, Join;
        JoinHeadGrows(s[0], r, sep);
        assert s == [s[0]] + rest;
      }
    }
  }

  /** Pieces without the separator come back from their joined text. */
  lemma {:induction false} SplitJoin(parts: seq<string>, c: char)
    requires parts != [] && forall p :: p in parts ==> c !in p
    ensures Split(Join([c], parts), [c]) == parts
  {
    AvoidsFirst(parts[0], c);
    if |parts| == 1 {
      SplitNoSep(parts[0], [c]);
    } else {
      SplitJoin(parts[1..], c);
      SplitAtFirst(parts[0], [c], Join([c], parts[1..]));
      assert [parts[0]] + parts[1..] == parts;
    }
  }

  /** No piece of a split holds a one-character separator. */
  lemma {:induction false} PiecesAvoid(s: string, c: char)
    ensures forall i :: 0 <= i < |Split(s, [c])| ==> c !in Split(s, [c])[i]
  {
    if s != [] {
      if s[0] == c {
        assert [c] <= s;
      }
      PiecesAvoid(s[1..], c);
    }
  }

  lemma AvoidsFirst(a: string, c: char)
    requires c !in a
    ensures FirstSepAtEnd(a, [c]) && !Contains(a, [c])
  {
    forall i | 0 <= i < |a| ensures !([c] <= (a + [c])[i..]) {
      assert (a + [c])[i..][0] == a[i];
    }
    forall i | 0 <= i < |a| ensures !OccursAt([c], a, i) {
      assert a[i..i + 1] == [a[i]];
    }
  }

  // ---------------------------------------------------------------------------
  // Line endings
  // ---------------------------------------------------------------------------

  const CRLF: string := ['\r', '\n']
  const CR: string := ['\r']
  const LF: string := ['\n']

  /** `text.replace("\r\n", "\n").replace("\r", "\n")` */
  function Newlines(s: string): string {
    Replace(Replace(s, CRLF, LF), CR, LF)
  }

  /** The number of characters that make up the first one after normalising. */
  function FirstWidth(s: string): nat
    requires s != []
  {
    if s[0] == '\r' && |s| > 1 && s[1] == '\n' then 2 else 1
  }

  /** The same in one pass. */
  function OnePass(s: string): string {
    if s == [] then []
    else [if s[0] == '\r' then '\n' else s[0]] + OnePass(s[FirstWidth(s)..])
  }

  lemma {:induction false} NewlinesInOnePass(s: string)
    ensures Newlines(s) == OnePass(s)
  {
    if s != [] {
      if CRLF <= s {
        NewlinesInOnePass(s[2..]);
        var t := Replace(s[2..], CRLF, LF);
        assert (LF + t)[1..] == t;
      } else {
        NewlinesInOnePass(s[1..]);
        var t := Replace(s[1..], CRLF, LF);
        assert ([s[0]] + t)[1..] == t;
        assert ([s[0]] + t)[..1] == [s[0]];
      }
    }
  }

  lemma OnePassUnfolds(s: string)
    requires s != []
    ensures OnePass(s) == [if s[0] == '\r' then '\n' else s[0]] + OnePass(s[FirstWidth(s)..])
  {
  }

  /** No CR LF pair lies across the boundary. */
  predicate CutsNoPair(a: string, b: string) {
    a == [] || b == [] || a[|a| - 1] != '\r' || b[0] != '\n'
  }

  /** The first character to be normalised is that of the part in front. */
  lemma FirstIsInFront(a: string, b: string)
    requires a != [] && CutsNoPair(a, b)
    ensures (a + b)[0] == a[0] && FirstWidth(a + b) == FirstWidth(a)
    ensures (a + b)[FirstWidth(a)..] == a[FirstWidth(a)..] + b && CutsNoPair(a[FirstWidth(a)..], b)
  {
    if |a| == 1 && b != [] {
      assert (a + b)[1] == b[0];
    }
  }

  lemma FirstStaysInFront(c: char, x: string, y: string)
    ensures [c] + (x + y) == [c] + x + y
  {
  }

  /** Normalising distributes over a boundary that does not cut a CR LF pair in two. */
  lemma {:induction false} OnePassConcat(a: string, b: string)
    requires CutsNoPair(a, b)
    ensures OnePass(a + b) == OnePass(a) + OnePass(b)
  {
    if a == [] {
      assert a + b == b;
    } else {
      hide OnePass, CutsNoPair, FirstWidth;
      FirstIsInFront(a, b);
      var rest := a[FirstWidth(a)..];
      OnePassConcat(rest, b);
      OnePassUnfolds(a);
      OnePassUnfolds(a + b);
      FirstStaysInFront(if a[0] == '\r' then '\n' else a[0], OnePass(rest), OnePass(b));
    }
  }

  lemma {:induction false} OnePassSpaces(w: string)
    requires All(w, IsSpace)
    ensures All(OnePass(w), IsSpace)
  {
    if w != [] {
      OnePassSpaces(w[FirstWidth(w)..]);
    }
  }

  lemma OnePassOfNothing()
    ensures OnePass([]) == []
  {
  }

  lemma LastOfMore(c: char, s: string)
    requires s != []
    ensures ([c] + s)[|[c] + s| - 1] == s[|s| - 1]
  {
  }

  /** Normalising keeps the last character unless it is a CR. */
  lemma {:induction false} OnePassEnd(s: string)
    requires s != [] && s[|s| - 1] != '\r'
    ensures OnePass(s) != [] && OnePass(s)[|OnePass(s)| - 1] == s[|s| - 1]
  {
    hide OnePass;
    OnePassUnfolds(s);
    var t := s[FirstWidth(s)..];
    if t == [] {
      OnePassOfNothing();
      assert s[|s| - 1] == if s[0] == '\r' then '\n' else s[0];
    } else {
      assert t[|t| - 1] == s[|s| - 1];
      OnePassEnd(t);
      LastOfMore(OnePass(s)[0], OnePass(t));
    }
  }

  /** Right-stripping commutes with normalising the line ends. */
  lemma RStripCommutes(s: string)
    ensures RStrip(Newlines(s)) == Newlines(RStrip(s))
  {
    var r := RStrip(s);
    var w := s[|r|..];
    assert s == r + w;
    NewlinesInOnePass(s);
    NewlinesInOnePass(r);
    if r != [] {
      assert r[|r| - 1] != '\r';
      OnePassEnd(r);
    }
    OnePassConcat(r, w);
    OnePassSpaces(w);
    RStripIs(OnePass(r), OnePass(w), IsSpace);
  }

  lemma {:induction false} NoCRAfter(s: string)
    ensures '\r' !in OnePass(s)
  {
    if s != [] {
      NoCRAfter(s[FirstWidth(s)..]);
    }
  }

  lemma {:induction false} NothingToNormalise(s: string)
    requires '\r' !in s
    ensures OnePass(s) == s
  {
    if s != [] {
      NothingToNormalise(s[1..]);
    }
  }

  // ---------------------------------------------------------------------------
  // Decimal numerals
  // ---------------------------------------------------------------------------

  predicate IsDigit(c: char) {
    '0' <= c <= '9'
  }

  function Dec(n: nat): (r: string)
    ensures All(r, IsDigit) && 1 <= |r| && (|r| == 1 <==> n < 10)
  {
    if n < 10 then [('0' as int + n) as char] else Dec(n / 10) + [('0' as int + n % 10) as char]
  }

  lemma {:induction false} DecInjective(m: nat, n: nat)
    requires Dec(m) == Dec(n)
    ensures m == n
  {
    var a, b := Dec(m), Dec(n);
    assert a[|a| - 1] == b[|b| - 1];
    if m >= 10 && n >= 10 {
      assert Dec(m / 10) == a[..|a| - 1] && Dec(n / 10) == b[..|b| - 1];
      DecInjective(m / 10, n / 10);
    }
  }
}
