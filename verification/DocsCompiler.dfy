/**
 The documentation compiler, scripts/compile_markdown_docs.py: normalising contents for the
 duplicate check, the duplicate pass, the two buckets, and the text of an output file.

 The digest, the classification of a document and its first heading are parameters.
 */
module DocsCompiler {
  import opened Options
  import opened Text
  import opened Anchors

  // ---------------------------------------------------------------------------
  // Normalising for the duplicate check
  // ---------------------------------------------------------------------------

  function RStripLines(lines: seq<string>): (r: seq<string>)
    ensures |r| == |lines|
  {
    if lines == [] then [] else [RStrip(lines[0])] + RStripLines(lines[1..])
  }

  function NormalForm(text: string): string {
    Strip(Join(LF, RStripLines(Split(Newlines(text), LF)))) + LF
  }

  predicate IsBlank(c: char) {
    IsSpace(c) && c != '\n'
  }

  predicate AtLineEnd(s: string) {
    s == [] || s[0] == '\n'
  }

  /** Removes the blanks before every line end, in one pass from the right. */
  function TrimLines(s: string): string {
    if s == [] then []
    else
      var r := TrimLines(s[1..]);
      if IsBlank(s[0]) && AtLineEnd(r) then r else [s[0]] + r
  }

  lemma RStripCons(c: char, s: string)
    ensures RStrip([c] + s) == if IsSpace(c) && RStrip(s) == [] then [] else [c] + RStrip(s)
  {
    var r := RStrip(s);
    var w := s[|r|..];
    assert s == r + w;
    if IsSpace(c) && r == [] {
      assert [c] + s == [] + ([c] + w);
      RStripIs([], [c] + w, IsSpace);
    } else {
      assert [c] + s == ([c] + r) + w;
      RStripIs([c] + r, w, IsSpace);
    }
  }

  ghost predicate Linewise(s: string) {
    var lines := Split(s, LF);
    Join(LF, RStripLines(lines)) == TrimLines(s) && (RStrip(lines[0]) == [] <==> AtLineEnd(TrimLines(s)))
  }

  lemma LinewiseAtLineEnd(s: string)
    requires s != [] && s[0] == '\n' && Linewise(s[1..])
    ensures Linewise(s)
  {
    hide RStripBy, IsSpace;
    assert s[..1] == LF;
    var rest := Split(s[1..], LF);
    var lines := Split(s, LF);
    assert lines == [[]] + rest && lines[1..] == rest;
  }

  lemma LinewiseInLine(s: string)
    requires s != [] && s[0] != '\n' && Linewise(s[1..])
    ensures Linewise(s)
  {
    hide RStripBy, IsSpace;
    assert s[..1] == [s[0]];
    var rest := Split(s[1..], LF);
    var lines := Split(s, LF);
    assert lines == [[s[0]] + rest[0]] + rest[1..] && lines[1..] == rest[1..];
    RStripCons(s[0], rest[0]);
    PiecesAvoid(s[1..], '\n');
    FirstLineHolds(rest, s[0]);
  }

  lemma RStripLinesCons(x: string, rest: seq<string>)
    ensures RStripLines([x] + rest) == [RStrip(x)] + RStripLines(rest)
  {
    hide RStrip;
    assert ([x] + rest)[1..] == rest;
  }

  lemma JoinFront(c: char, f: string, rest: seq<string>)
    ensures Join(LF, [[c] + f] + rest) == [c] + Join(LF, [f] + rest)
    ensures f != [] ==> f <= Join(LF, [f] + rest)
  {
    assert ([[c] + f] + rest)[1..] == rest && ([f] + rest)[1..] == rest;
    if rest == [] {
      assert [f] + rest == [f] && [[c] + f] + rest == [[c] + f];
    }
  }

  /** Joining lines puts the first one in front. */
  lemma FirstLineHolds(rest: seq<string>, c: char)
    requires rest != [] && '\n' !in rest[0]
    ensures var joined := Join(LF, RStripLines(rest));
            RStrip(rest[0]) != [] ==> joined != [] && joined[0] != '\n'
    ensures Join(LF, RStripLines([[c] + rest[0]] + rest[1..])) ==
            if IsSpace(c) && RStrip(rest[0]) == [] then Join(LF, RStripLines(rest)) else [c] + Join(LF, RStripLines(rest))
  {
    hide RStripBy, IsSpace, RStripLines, Join;
    var f, tail := RStrip(rest[0]), RStripLines(rest[1..]);
    assert f <= rest[0];
    assert rest == [rest[0]] + rest[1..];
    RStripCons(c, rest[0]);
    RStripLinesCons(rest[0], rest[1..]);
    RStripLinesCons([c] + rest[0], rest[1..]);
    JoinFront(c, f, tail);
  }

  /** The lines of the script, stripped one by one and joined again, are the trimmed text. */
  lemma {:induction false} LinewiseIsTrim(s: string)
    ensures Linewise(s)
  {
    if s != [] {
      LinewiseIsTrim(s[1..]);
      hide Linewise;
      if s[0] == '\n' {
        LinewiseAtLineEnd(s);
      } else {
        LinewiseInLine(s);
      }
    }
  }

  ghost predicate IsTrimmed(s: string) {
    forall i :: 0 <= i < |s| && IsBlank(s[i]) ==> i + 1 < |s| && s[i + 1] != '\n'
  }

  lemma {:induction false} TrimIsTrimmed(s: string)
    ensures IsTrimmed(TrimLines(s))
    ensures forall c :: c in TrimLines(s) ==> c in s
  {
    if s != [] {
      TrimIsTrimmed(s[1..]);
    }
  }

  lemma {:induction false} TrimmedIsFixed(s: string)
    requires IsTrimmed(s)
    ensures TrimLines(s) == s
  {
    if s != [] {
      assert forall i :: 0 <= i < |s| - 1 ==> s[1..][i] == s[i + 1];
      TrimmedIsFixed(s[1..]);
    }
  }

  lemma NormalFormIs(text: string)
    ensures NormalForm(text) == Strip(TrimLines(OnePass(text))) + LF
  {
    NewlinesInOnePass(text);
    LinewiseIsTrim(OnePass(text));
  }

  lemma MiddleIsTrimmed(a: string, r: string, b: string)
    requires IsTrimmed(a + r + b) && EndsOutside(r, IsSpace)
    ensures IsTrimmed(r + LF)
  {
    var s := a + r + b;
    forall i | 0 <= i < |r + LF| && IsBlank((r + LF)[i]) ensures i + 1 < |r + LF| && (r + LF)[i + 1] != '\n' {
      assert i < |r| - 1;
      assert s[|a| + i] == r[i] && s[|a| + i + 1] == r[i + 1];
    }
  }

  lemma MiddleAvoids(a: string, r: string, b: string, c: char)
    requires c !in a + r + b
    ensures c !in r
  {
    forall i | 0 <= i < |r| ensures r[i] != c {
      assert (a + r + b)[|a| + i] == r[i];
    }
  }

  lemma StrippedIsTrimmed(t: string)
    requires IsTrimmed(t) && '\r' !in t
    ensures IsTrimmed(Strip(t) + LF) && '\r' !in Strip(t) + LF
  {
    var a, b := StripParts(t, IsSpace);
    MiddleIsTrimmed(a, Strip(t), b);
    MiddleAvoids(a, Strip(t), b, '\r');
  }

  lemma StripLine(r: string)
    requires StartsOutside(r, IsSpace) && EndsOutside(r, IsSpace)
    ensures Strip(r + LF) == r
  {
    hide LStripBy, RStripBy;
    assert All([], IsSpace) && All(LF, IsSpace);
    hide IsSpace;
    StripIs([], r, LF, IsSpace);
    assert [] + r + LF == r + LF;
  }

  lemma FixedNormalForm(r: string)
    requires IsTrimmed(r + LF) && '\r' !in r + LF && StartsOutside(r, IsSpace) && EndsOutside(r, IsSpace)
    ensures NormalForm(r + LF) == r + LF
  {
    var s := r + LF;
    NormalFormIs(s);
    NothingToNormalise(s);
    TrimmedIsFixed(s);
    StripLine(r);
  }

  /** A normal form is its own normal form. */
  lemma NormalFormIsIdempotent(text: string)
    ensures NormalForm(NormalForm(text)) == NormalForm(text)
  {
    var t := TrimLines(OnePass(text));
    NormalFormIs(text);
    NoCRAfter(text);
    TrimIsTrimmed(OnePass(text));
    StrippedIsTrimmed(t);
    FixedNormalForm(Strip(t));
  }

  lemma {:induction false} CRLFBack(s: string)
    requires '\r' !in s
    ensures OnePass(Replace(s, LF, CRLF)) == s
  {
    if s != [] {
      assert s[..1] == [s[0]];
      CRLFBack(s[1..]);
      var t := Replace(s[1..], LF, CRLF);
      if s[0] == '\n' {
        assert (CRLF + t)[2..] == t;
      } else {
        assert ([s[0]] + t)[1..] == t;
      }
    }
  }

  /** Rewriting all line ends to LF, or all to CR LF, does not change the normal form. */
  lemma NormalFormIgnoresLineEndings(text: string)
    ensures NormalForm(Newlines(text)) == NormalForm(text)
    ensures NormalForm(Replace(Newlines(text), LF, CRLF)) == NormalForm(text)
  {
    var u := Newlines(text);
    NewlinesInOnePass(text);
    NoCRAfter(text);
    NormalFormIs(text);
    NormalFormIs(u);
    NothingToNormalise(u);
    NormalFormIs(Replace(u, LF, CRLF));
    CRLFBack(u);
  }

  lemma {:induction false} TrimDropsBlanks(a: string, w: string, e: string)
    requires All(w, IsBlank) && AtLineEnd(e)
    ensures TrimLines(a + w + e) == TrimLines(a + e)
  {
    if a != [] {
      assert (a + w + e)[1..] == a[1..] + w + e && (a + e)[1..] == a[1..] + e;
      TrimDropsBlanks(a[1..], w, e);
    } else if w != [] {
      assert (a + w + e)[1..] == a + w[1..] + e;
      assert forall i :: 0 <= i < |w| - 1 ==> w[1..][i] == w[i + 1];
      TrimDropsBlanks(a, w[1..], e);
      TrimAtLineEnd(e);
      assert a + e == e;
    } else {
      assert a + w + e == a + e;
    }
  }

  lemma TrimAtLineEnd(e: string)
    requires AtLineEnd(e)
    ensures AtLineEnd(TrimLines(e))
  {
  }

  lemma OnePassPieces(a: string, w: string, e: string)
    requires '\r' !in w && AtEol(a, e)
    ensures OnePass(a + w + e) == OnePass(a) + w + OnePass(e)
    ensures OnePass(a + e) == OnePass(a) + OnePass(e) && AtLineEnd(OnePass(e))
  {
    OnePassConcat(a, e);
    NothingToNormalise(w);
    if w == [] {
      assert a + w + e == a + e && OnePass(a) + w == OnePass(a);
    } else {
      assert w[|w| - 1] in w;
      OnePassConcat(a, w);
      OnePassConcat(a + w, e);
    }
  }

  /** `e` starts with a line end that does not continue `a`, or is the end of the text. */
  predicate AtEol(a: string, e: string) {
    (a == [] || a[|a| - 1] != '\r') && (e == [] || e[0] == '\n' || e[0] == '\r')
  }

  /** Blanks at the end of a line do not change the normal form. */
  lemma NormalFormIgnoresTrailingBlanks(a: string, w: string, e: string)
    requires All(w, IsBlank) && '\r' !in w && AtEol(a, e)
    ensures NormalForm(a + w + e) == NormalForm(a + e)
  {
    NormalFormIs(a + w + e);
    NormalFormIs(a + e);
    OnePassPieces(a, w, e);
    TrimDropsBlanks(OnePass(a), w, OnePass(e));
  }

  // ---------------------------------------------------------------------------
  // The duplicate pass
  // ---------------------------------------------------------------------------

  datatype Doc = Doc(rel: string, content: string, hash: string)

  /** Every document carries the digest of its normal form. */
  ghost predicate Hashed(docs: seq<Doc>, sha: string -> string) {
    forall i :: 0 <= i < |docs| ==> docs[i].hash == sha(NormalForm(docs[i].content))
  }

  ghost predicate DistinctPaths(docs: seq<Doc>) {
    forall i, j :: 0 <= i < j < |docs| ==> docs[i].rel != docs[j].rel
  }

  /** The digest tells the contents at hand apart. */
  ghost predicate TellsApart(sha: string -> string, docs: seq<Doc>) {
    forall d, e :: d in docs && e in docs && sha(NormalForm(d.content)) == sha(NormalForm(e.content)) ==>
      NormalForm(d.content) == NormalForm(e.content)
  }

  predicate HasHash(docs: seq<Doc>, h: string) {
    exists i :: 0 <= i < |docs| && docs[i].hash == h
  }

  predicate IsRepeat(docs: seq<Doc>, i: nat)
    requires i < |docs|
  {
    HasHash(docs[..i], docs[i].hash)
  }

  function FirstOf(docs: seq<Doc>, h: string): (d: Doc)
    requires HasHash(docs, h)
    ensures exists j :: 0 <= j < |docs| && d == docs[j] && d.hash == h && !HasHash(docs[..j], h)
  {
    var n := |docs| - 1;
    if HasHash(docs[..n], h) then
      var d := FirstOf(docs[..n], h);
      assert exists j :: 0 <= j < n && d == docs[j] && d.hash == h && !HasHash(docs[..j], h) by {
        var j :| 0 <= j < |docs[..n]| && d == docs[..n][j] && d.hash == h && !HasHash(docs[..n][..j], h);
        assert docs[..n][..j] == docs[..j];
      }
      d
    else
      assert forall i :: 0 <= i < n ==> docs[..n][i] == docs[i];
      docs[n]
  }

  function Uniques(docs: seq<Doc>): seq<Doc> {
    if docs == [] then []
    else
      var n := |docs| - 1;
      if HasHash(docs[..n], docs[n].hash) then Uniques(docs[..n]) else Uniques(docs[..n]) + [docs[n]]
  }

  /** `duplicates`: the path of a repeated document, mapped to the path of the earliest equal one. */
  function Duplicates(docs: seq<Doc>): map<string, string> {
    if docs == [] then map[]
    else
      var n := |docs| - 1;
      var m := Duplicates(docs[..n]);
      if HasHash(docs[..n], docs[n].hash) then m[docs[n].rel := FirstOf(docs[..n], docs[n].hash).rel] else m
  }

  lemma FirstStays(docs: seq<Doc>, d: Doc, h: string)
    requires HasHash(docs, h)
    ensures HasHash(docs + [d], h) && FirstOf(docs + [d], h) == FirstOf(docs, h)
  {
    assert (docs + [d])[..|docs|] == docs;
    var i :| 0 <= i < |docs| && docs[i].hash == h;
    assert (docs + [d])[i].hash == h;
  }

  lemma NewFirst(docs: seq<Doc>, d: Doc)
    requires !HasHash(docs, d.hash)
    ensures HasHash(docs + [d], d.hash) && FirstOf(docs + [d], d.hash) == d
  {
    assert (docs + [d])[..|docs|] == docs;
    assert (docs + [d])[|docs|].hash == d.hash;
  }

  ghost predicate FirstTable(first: map<string, Doc>, docs: seq<Doc>) {
    && (forall h :: h in first <==> HasHash(docs, h))
    && (forall h :: h in first ==> first[h] == FirstOf(docs, h))
  }

  lemma FirstTableStep(first: map<string, Doc>, docs: seq<Doc>, d: Doc)
    requires FirstTable(first, docs)
    ensures FirstTable(if d.hash in first then first else first[d.hash := d], docs + [d])
  {
    var first' := if d.hash in first then first else first[d.hash := d];
    forall h ensures h in first' <==> HasHash(docs + [d], h) {
      if HasHash(docs, h) {
        FirstStays(docs, d, h);
      } else if HasHash(docs + [d], h) {
        var i :| 0 <= i < |docs + [d]| && (docs + [d])[i].hash == h;
        assert i < |docs| ==> docs[i].hash == h;
      } else {
        assert (docs + [d])[|docs|].hash == d.hash;
      }
    }
    forall h | h in first' ensures first'[h] == FirstOf(docs + [d], h) {
      if HasHash(docs, h) {
        FirstStays(docs, d, h);
      } else {
        NewFirst(docs, d);
      }
    }
  }

  lemma NothingFirst()
    ensures FirstTable(map[], [])
  {
  }

  lemma FirstTableFinds(first: map<string, Doc>, docs: seq<Doc>, h: string)
    requires FirstTable(first, docs)
    ensures h in first <==> HasHash(docs, h)
    ensures h in first ==> first[h] == FirstOf(docs, h)
  {
  }

  /** The loop over all documents with its `first_by_hash` table. */
  method FindDuplicates(docs: seq<Doc>) returns (unique: seq<Doc>, duplicates: map<string, string>)
    ensures unique == Uniques(docs) && duplicates == Duplicates(docs)
  {
    hide FirstTable, HasHash, FirstOf;
    unique, duplicates := [], map[];
    var first: map<string, Doc> := map[];
    NothingFirst();
    for i := 0 to |docs|
      invariant unique == Uniques(docs[..i]) && duplicates == Duplicates(docs[..i])
      invariant FirstTable(first, docs[..i])
    {
      var doc := docs[i];
      assert docs[..i + 1] == docs[..i] + [doc] && docs[..i + 1][..i] == docs[..i];
      FirstTableStep(first, docs[..i], doc);
      FirstTableFinds(first, docs[..i], doc.hash);
      if doc.hash in first {
        duplicates := duplicates[doc.rel := first[doc.hash].rel];
      } else {
        first := first[doc.hash := doc];
        unique := unique + [doc];
      }
    }
    assert docs[..|docs|] == docs;
  }

  lemma {:induction false} DuplicatesArePaths(docs: seq<Doc>, r: string)
    requires r in Duplicates(docs)
    ensures exists j :: 0 <= j < |docs| && docs[j].rel == r
  {
    var n := |docs| - 1;
    if r != docs[n].rel {
      DuplicatesArePaths(docs[..n], r);
      var j :| 0 <= j < n && docs[..n][j].rel == r;
      assert docs[j].rel == r;
    }
  }

  /** With distinct paths, the table of duplicates holds exactly the repeated documents. */
  lemma {:induction false} DuplicatesAreRepeats(docs: seq<Doc>, i: nat)
    requires DistinctPaths(docs) && i < |docs|
    ensures docs[i].rel in Duplicates(docs) <==> IsRepeat(docs, i)
    ensures IsRepeat(docs, i) ==> Duplicates(docs)[docs[i].rel] == FirstOf(docs[..i], docs[i].hash).rel
  {
    var n := |docs| - 1;
    var init := docs[..n];
    if i < n {
      DuplicatesAreRepeats(init, i);
      assert init[..i] == docs[..i];
    } else if docs[n].rel in Duplicates(init) {
      DuplicatesArePaths(init, docs[n].rel);
    }
  }

  lemma {:induction false} UniquesAreFirsts(docs: seq<Doc>, d: Doc)
    ensures d in Uniques(docs) <==> exists i :: 0 <= i < |docs| && docs[i] == d && !IsRepeat(docs, i)
  {
    if docs != [] {
      var n := |docs| - 1;
      var init := docs[..n];
      UniquesAreFirsts(init, d);
      if d in Uniques(init) {
        var i :| 0 <= i < n && init[i] == d && !IsRepeat(init, i);
        assert docs[..i] == init[..i];
        assert docs[i] == d && !IsRepeat(docs, i);
      }
      if i :| 0 <= i < |docs| && docs[i] == d && !IsRepeat(docs, i) {
        if i < n {
          assert docs[..i] == init[..i];
          assert init[i] == d && !IsRepeat(init, i);
        }
      }
    }
  }

  /** The kept documents have pairwise distinct normal forms. */
  lemma KeptFormsDiffer(docs: seq<Doc>, sha: string -> string, i: nat, j: nat)
    requires Hashed(docs, sha) && i < j < |docs| && !IsRepeat(docs, j)
    ensures NormalForm(docs[i].content) != NormalForm(docs[j].content)
  {
    assert docs[..j][i] == docs[i];
  }

  lemma FirstIsUnique(docs: seq<Doc>, i: nat)
    requires i < |docs| && IsRepeat(docs, i)
    ensures var d := FirstOf(docs[..i], docs[i].hash); d in Uniques(docs) && d in docs && d.hash == docs[i].hash
  {
    var d := FirstOf(docs[..i], docs[i].hash);
    var j :| 0 <= j < |docs[..i]| && d == docs[..i][j] && d.hash == docs[i].hash && !HasHash(docs[..i][..j], docs[i].hash);
    assert docs[..i][..j] == docs[..j] && docs[j] == d;
    assert !IsRepeat(docs, j);
    UniquesAreFirsts(docs, d);
  }

  /** A repeated document points at a kept one with the same normal form. */
  lemma RepeatsEqualTheirOriginal(docs: seq<Doc>, sha: string -> string, i: nat)
    requires Hashed(docs, sha) && TellsApart(sha, docs) && i < |docs| && IsRepeat(docs, i)
    ensures var d := FirstOf(docs[..i], docs[i].hash);
            d in Uniques(docs) && NormalForm(d.content) == NormalForm(docs[i].content)
  {
    FirstIsUnique(docs, i);
    assert docs[i] in docs;
  }
}
