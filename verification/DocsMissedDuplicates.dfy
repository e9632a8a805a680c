/**
 Where the checker fails on what the compiler wrote: two documents that differ only in blanks at
 line ends are duplicates for the compiler, which leaves the second one out, but the checker
 compares line ends verbatim and reports it missing.
 */
module DocsMissedDuplicates {
  import opened Options
  import opened Text
  import opened Anchors
  import opened DocsCompiler
  import opened DocsOutput
  import opened DocsValidator

  /** No CR, and no blank before a line end. */
  ghost predicate Tidy(s: string) {
    (forall i :: 0 <= i < |s| ==> s[i] != '\r') && (forall i :: 0 <= i < |s| - 1 && IsBlank(s[i]) ==> s[i + 1] != '\n')
  }

  ghost predicate TidyLine(s: string) {
    s != [] && Tidy(s) && s[0] != '\n' && !IsBlank(s[|s| - 1])
  }

  lemma Glue(a: string, b: string)
    requires Tidy(a) && Tidy(b) && (a == [] || b == [] || !IsBlank(a[|a| - 1]) || b[0] != '\n')
    ensures Tidy(a + b)
  {
  }

  /** Text that ends a line, so that anything tidy may follow. */
  ghost predicate Closed(s: string) {
    Tidy(s) && s != [] && s[|s| - 1] == '\n'
  }

  lemma After(a: string, b: string)
    requires Closed(a) && Tidy(b)
    ensures Tidy(a + b) && (Closed(b) ==> Closed(a + b))
  {
    hide IsSpace;
    Glue(a, b);
  }

  /** A tidy line between two fixed pieces that do not break it. */
  lemma Wrap(a: string, line: string, b: string)
    requires Tidy(a) && TidyLine(line) && Tidy(b)
    ensures Tidy(a + line + b) && (Closed(b) ==> Closed(a + line + b))
  {
    hide IsBlank;
    Glue(a, line);
    Glue(a + line, b);
  }

  lemma DecIsTidy(n: nat)
    ensures TidyLine(Dec(n))
  {
    var r := Dec(n);
    forall i | 0 <= i < |r| ensures !IsSpace(r[i]) {
      assert IsDigit(r[i]);
    }
  }

  lemma WrappedDecIsTidy(a: string, n: nat, b: string)
    requires Tidy(a) && Tidy(b)
    ensures Tidy(a + Dec(n) + b)
  {
    DecIsTidy(n);
    Wrap(a, Dec(n), b);
  }

  ghost predicate TidyHeadings(hs: seq<Option<string>>) {
    forall i :: 0 <= i < |hs| && hs[i].Some? && hs[i].value != [] ==> TidyLine(hs[i].value)
  }

  lemma DocumentTitleIsTidy(n: nat)
    ensures TidyLine("Document " + Dec(n))
  {
    DecIsTidy(n);
    Glue("Document ", Dec(n));
  }

  lemma NumberedTitleIsTidy(x: string, n: nat)
    requires TidyLine(x)
    ensures TidyLine(x + TitleSuffix(n))
  {
    WrappedDecIsTidy(" (", n, ")");
    Glue(x, TitleSuffix(n));
  }

  lemma TitlesAreTidy(hs: seq<Option<string>>)
    requires TidyHeadings(hs)
    ensures forall i :: 0 <= i < |hs| ==> TidyLine(Titles(hs)[i])
  {
    var raw := RawTitles(hs);
    forall i | 0 <= i < |hs| ensures TidyLine(Titles(hs)[i]) {
      DocumentTitleIsTidy(i + 1);
      NumberedTitleIsTidy(raw[i], Occurrences(raw[..i], raw[i]) + 1);
    }
  }

  lemma NoSpacesIsTidy(a: string)
    requires a != [] && forall c :: c in a ==> !IsSpace(c)
    ensures TidyLine(a)
  {
    assert IsSpace('\r') && IsSpace('\n');
    hide IsSpace;
    assert forall i :: 0 <= i < |a| ==> a[i] in a;
  }

  lemma AnchorIsTidy(sc: Script, text: string)
    requires Lawful(sc)
    ensures TidyLine(AnchorFor(sc, text))
  {
    hide Lawful, AnchorFor;
    AnchorsAreClean(sc, text);
    KeptHasNoSpaces(sc, AnchorFor(sc, text));
    NoSpacesIsTidy(AnchorFor(sc, text));
  }

  lemma NumberedAnchorIsTidy(x: string, n: nat)
    requires TidyLine(x)
    ensures TidyLine(x + AnchorSuffix(n))
  {
    DecIsTidy(n);
    Glue("-", Dec(n));
    Glue(x, AnchorSuffix(n));
  }

  lemma AnchorListIsTidy(sc: Script, hs: seq<Option<string>>)
    requires Lawful(sc)
    ensures forall i :: 0 <= i < |hs| ==> TidyLine(AnchorList(sc, hs)[i])
  {
    var base := BaseAnchors(sc, Titles(hs));
    forall i | 0 <= i < |hs| ensures TidyLine(AnchorList(sc, hs)[i]) {
      AnchorIsTidy(sc, Titles(hs)[i]);
      NumberedAnchorIsTidy(base[i], Occurrences(base[..i], base[i]) + 1);
    }
  }

  ghost predicate TidyTable(names: map<string, string>) {
    forall r :: r in names ==> TidyLine(names[r])
  }

  lemma {:induction false} ByPathIsTidy(items: seq<Doc>, names: seq<string>)
    requires |items| == |names| && forall i :: 0 <= i < |names| ==> TidyLine(names[i])
    ensures TidyTable(ByPath(items, names))
  {
    if items != [] {
      ByPathIsTidy(items[..|items| - 1], names[..|names| - 1]);
    }
  }

  lemma GetIsTidy(names: map<string, string>, rel: string, default: string)
    requires TidyTable(names) && TidyLine(default)
    ensures TidyLine(Get(names, rel, default))
  {
  }

  lemma AddLine(h: string, intro: string, line: string, end: string)
    requires Closed(h) && Tidy(intro) && TidyLine(line) && Closed(end)
    ensures Closed(h + intro + line + end)
  {
    hide Tidy, TidyLine;
    After(h, intro);
    Wrap(h + intro, line, end);
  }

  lemma HeaderPieces()
    ensures Tidy("# ") && Closed("\n\n") && Tidy("Generated: ") && Closed(" (UTC)\n\n")
  {
  }

  lemma HeaderTopIsTidy(title: string, generated: string, description: string)
    requires TidyLine(title) && TidyLine(generated) && TidyLine(description)
    ensures Closed(HeaderTop(title, generated, description))
  {
    HeaderPieces();
    hide Tidy, TidyLine, Closed;
    Wrap("# ", title, "\n\n");
    var h := "# " + title + "\n\n";
    AddLine(h, "Generated: ", generated, " (UTC)\n\n");
    ClosedIsTidy(h + "Generated: " + generated + " (UTC)\n\n");
    Wrap(h + "Generated: " + generated + " (UTC)\n\n", description, "\n\n");
  }

  lemma ClosedIsTidy(s: string)
    requires Closed(s)
    ensures Tidy(s)
  {
  }

  lemma CountPieces()
    ensures Tidy("- Source .md files ") && Tidy("discovered: ") && Closed("\n") && Closed("\n\n")
  {
    assert !IsBlank('\n');
    hide IsBlank;
  }

  lemma UniqueCountPieces()
    ensures Tidy("- Unique file ") && Tidy("contents included: ")
  {
    hide IsBlank;
  }

  lemma LabelsAreTidy()
    ensures Tidy(SourcesLabel()) && Tidy(UniqueLabel())
  {
    CountPieces();
    UniqueCountPieces();
    StartsOfPieces();
    hide Tidy, IsBlank;
    Glue("- Source .md files ", "discovered: ");
    Glue("- Unique file ", "contents included: ");
  }

  lemma StartsOfPieces()
    ensures "discovered: "[0] != '\n' && "contents included: "[0] != '\n'
  {
  }

  lemma HeaderCountsAreTidy(sources: nat, unique: nat)
    ensures Closed(HeaderCounts(sources, unique))
  {
    CountPieces();
    LabelsAreTidy();
    DecIsTidy(sources);
    DecIsTidy(unique);
    hide Tidy, TidyLine, Dec, SourcesLabel, UniqueLabel;
    Wrap(SourcesLabel(), Dec(sources), "\n");
    AddLine(SourcesLabel() + Dec(sources) + "\n", UniqueLabel(), Dec(unique), "\n\n");
  }

  lemma ContentsPieces()
    ensures Closed("---\n\n") && Closed("## Table of Contents\n\n")
  {
  }

  lemma HeaderIsTidy(title: string, generated: string, description: string, sources: nat, unique: nat)
    requires TidyLine(title) && TidyLine(generated) && TidyLine(description)
    ensures Closed(RenderHeader(title, generated, description, sources, unique))
  {
    ContentsPieces();
    HeaderTopIsTidy(title, generated, description);
    HeaderCountsAreTidy(sources, unique);
    hide HeaderTop, HeaderCounts, Tidy, TidyLine;
    var h := HeaderTop(title, generated, description) + HeaderCounts(sources, unique);
    After(HeaderTop(title, generated, description), HeaderCounts(sources, unique));
    After(h, "---\n\n");
    After(h + "---\n\n", "## Table of Contents\n\n");
  }

  lemma IndexLineIsTidy(title: string, anchor: string)
    requires TidyLine(title) && TidyLine(anchor)
    ensures TidyLine("- [" + title + "](#" + anchor + ")")
  {
    Wrap("- [", title, "](#");
    Wrap("- [" + title + "](#", anchor, ")");
  }

  lemma {:induction false} IndexLinesAreTidy(items: seq<Doc>, titles: map<string, string>, anchors: map<string, string>)
    requires TidyTable(titles) && TidyTable(anchors)
    ensures forall i :: 0 <= i < |IndexLines(items, titles, anchors)| ==> TidyLine(IndexLines(items, titles, anchors)[i])
  {
    if items != [] {
      var n := |items| - 1;
      IndexLinesAreTidy(items[..n], titles, anchors);
      GetIsTidy(titles, items[n].rel, "Untitled");
      GetIsTidy(anchors, items[n].rel, "doc");
      IndexLineIsTidy(Get(titles, items[n].rel, "Untitled"), Get(anchors, items[n].rel, "doc"));
    }
  }

  lemma {:induction false} JoinIsTidy(lines: seq<string>)
    requires forall i :: 0 <= i < |lines| ==> TidyLine(lines[i])
    ensures var j := Join("\n", lines); Tidy(j) && (j != [] ==> TidyLine(j))
    ensures lines != [] ==> Join("\n", lines) != []
  {
    if |lines| > 1 {
      JoinIsTidy(lines[1..]);
      Glue(lines[0], "\n");
      Glue(lines[0] + "\n", Join("\n", lines[1..]));
    }
  }

  lemma IndexIsTidy(items: seq<Doc>, titles: map<string, string>, anchors: map<string, string>)
    requires TidyTable(titles) && TidyTable(anchors)
    ensures Closed(RenderIndex(items, titles, anchors))
  {
    IndexLinesAreTidy(items, titles, anchors);
    JoinIsTidy(IndexLines(items, titles, anchors));
    RulePiece();
    var lines := Join("\n", IndexLines(items, titles, anchors));
    var none: string := [];
    hide Tidy, IndexLines, IsSpace;
    if lines == none {
      assert none + "\n\n---\n\n" == "\n\n---\n\n";
    } else {
      Wrap(none, lines, "\n\n---\n\n");
      assert none + lines == lines;
    }
  }

  lemma RulePiece()
    ensures Closed("\n\n---\n\n") && Tidy([])
  {
  }

  lemma HeadPieces()
    ensures Tidy("<a id=\"") && Closed("\"></a>\n\n") && Tidy("## ") && Closed("\n\n")
  {
  }

  function HeadOfPart(title: string, anchor: string): string {
    "<a id=\"" + anchor + "\"></a>\n\n" + "## " + title + "\n\n"
  }

  lemma HeadOfPartIsTidy(title: string, anchor: string)
    requires TidyLine(title) && TidyLine(anchor)
    ensures Closed(HeadOfPart(title, anchor))
  {
    HeadPieces();
    hide Tidy, TidyLine;
    Wrap("<a id=\"", anchor, "\"></a>\n\n");
    AddLine("<a id=\"" + anchor + "\"></a>\n\n", "## ", title, "\n\n");
  }

  lemma DetailsPieces()
    ensures Closed("<details>\n") && Closed("<summary>Show content</summary>\n\n")
  {
    SummaryPiece();
  }

  lemma SummaryPiece()
    ensures Closed("<summary>Show content</summary>\n\n")
  {
    assert !IsBlank('\n') && !IsBlank('>');
    hide IsBlank;
  }

  lemma AfterContentPieces()
    ensures Closed("\n\n") && Closed("</details>\n\n") && Closed("---\n\n")
  {
  }

  lemma AfterContentIsClosed()
    ensures Closed(AfterContent())
  {
    AfterContentPieces();
    hide Tidy;
    After("\n\n", "</details>\n\n");
    After("\n\n" + "</details>\n\n", "---\n\n");
  }

  lemma BeforeContentIsClosed(title: string, anchor: string)
    requires TidyLine(title) && TidyLine(anchor)
    ensures Closed(BeforeContent(title, anchor))
  {
    DetailsPieces();
    HeadOfPartIsTidy(title, anchor);
    hide Tidy, TidyLine;
    var p := HeadOfPart(title, anchor);
    After(p, "<details>\n");
    After(p + "<details>\n", "<summary>Show content</summary>\n\n");
    assert BeforeContent(title, anchor) == p + "<details>\n" + "<summary>Show content</summary>\n\n";
  }

  lemma DuplicatePieces()
    ensures Tidy("Duplicate of [") && Tidy("](#") && Closed("). Content omitted.\n\n") && Closed("---\n\n")
  {
    assert !IsBlank('\n') && !IsBlank('.') && !IsBlank('-');
    hide IsBlank;
  }

  function DuplicateLine(title: string, anchor: string): string {
    "Duplicate of [" + title + "](#" + anchor + "). Content omitted.\n\n"
  }

  lemma DuplicateLineIsTidy(title: string, anchor: string)
    requires TidyLine(title) && TidyLine(anchor)
    ensures Closed(DuplicateLine(title, anchor))
  {
    DuplicatePieces();
    hide Tidy, TidyLine;
    Wrap("Duplicate of [", title, "](#");
    Wrap("Duplicate of [" + title + "](#", anchor, "). Content omitted.\n\n");
  }

  lemma DuplicateIsTidy(title: string, anchor: string, originalTitle: string, originalAnchor: string)
    requires TidyLine(title) && TidyLine(anchor) && TidyLine(originalTitle) && TidyLine(originalAnchor)
    ensures Closed(RenderDuplicate(title, anchor, originalTitle, originalAnchor))
  {
    DuplicatePieces();
    HeadOfPartIsTidy(title, anchor);
    DuplicateLineIsTidy(originalTitle, originalAnchor);
    hide Tidy, TidyLine;
    var p, q := HeadOfPart(title, anchor), DuplicateLine(originalTitle, originalAnchor);
    assert RenderDuplicate(title, anchor, originalTitle, originalAnchor) == p + q + "---\n\n";
    hide HeadOfPart, DuplicateLine, RenderDuplicate;
    After(p, q);
    After(p + q, "---\n\n");
  }

  lemma DefaultNames()
    ensures TidyLine("Untitled") && TidyLine("doc") && TidyLine("Original") && TidyLine("original")
  {
  }

  // ---------------------------------------------------------------------------
  // Broken line ends
  // ---------------------------------------------------------------------------

  /** A part of one line up to its end, with a blank before it. */
  predicate BrokenEnd(t: string) {
    && |t| >= 2 && IsBlank(t[|t| - 2]) && t[|t| - 1] == '\n'
    && forall i :: 0 <= i < |t| - 1 ==> t[i] != '\n'
  }

  /** `t` does not occur in `s` once line ends are normalised. */
  ghost predicate Lacks(s: string, t: string) {
    !Contains(OnePass(s), t)
  }

  ghost predicate ClosedLacks(s: string, t: string) {
    s != [] && s[|s| - 1] == '\n' && Lacks(s, t)
  }

  lemma OccurrenceBreaks(s: string, t: string, i: int)
    requires BrokenEnd(t) && OccursAt(t, s, i)
    ensures IsBlank(s[i + |t| - 2]) && s[i + |t| - 1] == '\n'
  {
    assert t[|t| - 2] == s[i..i + |t|][|t| - 2] && t[|t| - 1] == s[i..i + |t|][|t| - 1];
  }

  lemma TidyLacks(s: string, t: string)
    requires Tidy(s) && BrokenEnd(t)
    ensures Lacks(s, t)
  {
    TidyStaysNormal(s);
    NewlinesInOnePass(s);
    forall i | 0 <= i <= |s| ensures !OccursAt(t, s, i) {
      if OccursAt(t, s, i) {
        OccurrenceBreaks(s, t, i);
      }
    }
  }

  lemma ClosedIsLacking(s: string, t: string)
    requires Closed(s) && BrokenEnd(t)
    ensures ClosedLacks(s, t)
  {
    TidyLacks(s, t);
  }

  lemma OccurrenceAcross(x: string, y: string, t: string, i: int)
    requires BrokenEnd(t) && OccursAt(t, x + y, i) && i < |x| < i + |t|
    ensures x[|x| - 1] != '\n' && y != [] && (y[0] == '\n' ==> IsBlank(x[|x| - 1]))
  {
    var s, k := x + y, |x| - i;
    assert s[i..i + |t|][k - 1] == s[|x| - 1] && s[i..i + |t|][k] == s[|x|];
  }

  lemma OccursBehind(x: string, y: string, t: string, i: int)
    requires OccursAt(t, x + y, i) && |x| <= i
    ensures Contains(y, t)
  {
    var k := i - |x|;
    assert y == (x + y)[|x|..];
    assert y[k..k + |t|] == (x + y)[i..i + |t|];
    assert OccursAt(t, y, k);
  }

  /** A line end in front keeps what ends with its only line end from reaching across, and so does one behind
      a character that is no blank. */
  lemma OccursInOne(x: string, y: string, t: string)
    requires BrokenEnd(t) && Contains(x + y, t)
    requires x == [] || x[|x| - 1] == '\n' || (!IsBlank(x[|x| - 1]) && y != [] && y[0] == '\n')
    ensures Contains(x, t) || Contains(y, t)
  {
    hide IsBlank;
    var s := x + y;
    var i :| 0 <= i <= |s| && OccursAt(t, s, i);
    if i + |t| <= |x| {
      assert x[i..i + |t|] == s[i..i + |t|];
      assert OccursAt(t, x, i);
    } else if |x| <= i {
      OccursBehind(x, y, t, i);
    } else {
      OccurrenceAcross(x, y, t, i);
    }
  }

  lemma AfterLacks(a: string, b: string, t: string)
    requires BrokenEnd(t) && ClosedLacks(a, t) && Lacks(b, t)
    ensures Lacks(a + b, t) && (ClosedLacks(b, t) ==> ClosedLacks(a + b, t))
  {
    hide BrokenEnd, Contains;
    OnePassConcat(a, b);
    OnePassEnd(a);
    if Contains(OnePass(a) + OnePass(b), t) {
      OccursInOne(OnePass(a), OnePass(b), t);
    }
  }

  /** Right-stripped content before a line end. */
  lemma ContentLacks(content: string, end: string, t: string)
    requires BrokenEnd(t) && Lacks(RStrip(content), t) && ClosedLacks(end, t) && end[0] == '\n'
    ensures ClosedLacks(RStrip(content) + end, t)
  {
    var c := RStrip(content);
    if c == [] {
      assert c + end == end;
    } else {
      var last := c[|c| - 1];
      assert !IsSpace(last);
      assert last != '\r' && !IsBlank(last);
      hide BrokenEnd, Contains, IsSpace, RStripBy;
      OnePassConcat(c, end);
      OnePassEnd(c);
      assert OnePass(end)[0] == '\n';
      if Contains(OnePass(c) + OnePass(end), t) {
        OccursInOne(OnePass(c), OnePass(end), t);
      }
    }
  }

  lemma AfterContentStartsLine()
    ensures AfterContent() != [] && AfterContent()[0] == '\n'
  {
  }

  lemma RenderedAs(doc: Doc, title: string, anchor: string)
    ensures RenderDoc(doc, title, anchor) == BeforeContent(title, anchor) + (RStrip(doc.content) + AfterContent())
  {
    hide BeforeContent, AfterContent, RStrip;
  }

  lemma DocLacks(doc: Doc, title: string, anchor: string, t: string)
    requires TidyLine(title) && TidyLine(anchor) && BrokenEnd(t) && Lacks(RStrip(doc.content), t)
    ensures ClosedLacks(RenderDoc(doc, title, anchor), t)
  {
    BeforeContentIsClosed(title, anchor);
    AfterContentIsClosed();
    AfterContentStartsLine();
    hide RenderDoc, BeforeContent, AfterContent, Closed, TidyLine, BrokenEnd, Lacks, RStrip;
    ClosedIsLacking(BeforeContent(title, anchor), t);
    ClosedIsLacking(AfterContent(), t);
    ContentLacks(doc.content, AfterContent(), t);
    AfterLacks(BeforeContent(title, anchor), RStrip(doc.content) + AfterContent(), t);
    RenderedAs(doc, title, anchor);
  }

  lemma PartLacks(doc: Doc, duplicates: map<string, string>, titles: map<string, string>, anchors: map<string, string>,
                  t: string)
    requires TidyTable(titles) && TidyTable(anchors) && BrokenEnd(t)
    requires doc.rel !in duplicates ==> Lacks(RStrip(doc.content), t)
    ensures ClosedLacks(RenderPart(doc, duplicates, titles, anchors), t)
  {
    hide Tidy, RStrip, RenderDoc, RenderDuplicate, Closed, ClosedLacks, Lacks, BrokenEnd;
    DefaultNames();
    hide TidyLine;
    GetIsTidy(titles, doc.rel, "Untitled");
    GetIsTidy(anchors, doc.rel, "doc");
    var title, anchor := Get(titles, doc.rel, "Untitled"), Get(anchors, doc.rel, "doc");
    if doc.rel in duplicates {
      var original := duplicates[doc.rel];
      GetIsTidy(titles, original, "Original");
      GetIsTidy(anchors, original, "original");
      DuplicateIsTidy(title, anchor, Get(titles, original, "Original"), Get(anchors, original, "original"));
      ClosedIsLacking(RenderPart(doc, duplicates, titles, anchors), t);
    } else {
      DocLacks(doc, title, anchor, t);
    }
  }

  ghost predicate KeptLack(items: seq<Doc>, duplicates: map<string, string>, t: string) {
    forall i :: 0 <= i < |items| && items[i].rel !in duplicates ==> !Contains(Comparable(items[i].content), t)
  }

  lemma ComparableIs(content: string)
    ensures OnePass(RStrip(content)) == Comparable(content)
  {
    RStripCommutes(content);
    NewlinesInOnePass(RStrip(content));
  }

  lemma {:induction false} PartsLack(items: seq<Doc>, duplicates: map<string, string>,
                                     titles: map<string, string>, anchors: map<string, string>, t: string)
    requires TidyTable(titles) && TidyTable(anchors) && BrokenEnd(t) && KeptLack(items, duplicates, t)
    ensures Lacks(RenderParts(items, duplicates, titles, anchors), t)
    ensures items != [] ==> ClosedLacks(RenderParts(items, duplicates, titles, anchors), t)
  {
    if items == [] {
      RulePiece();
      hide RenderPart, Tidy;
      TidyLacks([], t);
    } else {
      var n := |items| - 1;
      OneMorePart(items, duplicates, titles, anchors);
      hide RenderPart, RenderParts, RStrip, TidyTable, Contains, BrokenEnd, OnePass, Comparable;
      PartsLack(items[..n], duplicates, titles, anchors, t);
      ComparableIs(items[n].content);
      PartLacks(items[n], duplicates, titles, anchors, t);
      var before := RenderParts(items[..n], duplicates, titles, anchors);
      var part := RenderPart(items[n], duplicates, titles, anchors);
      if n > 0 {
        AfterLacks(before, part, t);
      } else {
        assert before + part == part;
      }
    }
  }

  lemma OneMorePart(items: seq<Doc>, duplicates: map<string, string>,
                    titles: map<string, string>, anchors: map<string, string>)
    requires items != []
    ensures var n := |items| - 1;
            var before := RenderParts(items[..n], duplicates, titles, anchors);
            && RenderParts(items, duplicates, titles, anchors) == before + RenderPart(items[n], duplicates, titles, anchors)
            && (n == 0 ==> before == [])
  {
    hide RenderPart;
  }

  ghost predicate TidyLayout(lay: Layout) {
    && Lawful(lay.sc) && TidyLine(lay.title) && TidyLine(lay.generated) && TidyLine(lay.description)
    && forall text :: lay.heading(text).Some? && lay.heading(text).value != [] ==> TidyLine(lay.heading(text).value)
  }

  lemma OutputLacks(lay: Layout, items: seq<Doc>, duplicates: map<string, string>, t: string)
    requires TidyLayout(lay) && BrokenEnd(t) && KeptLack(items, duplicates, t)
    ensures Lacks(OutputText(lay, items, duplicates), t)
  {
    hide RenderHeader, RenderIndex, RenderParts, Titles, AnchorList, ByPath, BrokenEnd, KeptLack, Lacks;
    var hs := Headings(lay, items);
    TitlesAreTidy(hs);
    AnchorListIsTidy(lay.sc, hs);
    ByPathIsTidy(items, Titles(hs));
    ByPathIsTidy(items, AnchorList(lay.sc, hs));
    var titles, anchors := TitleTable(lay, items), AnchorTable(lay, items);
    HeaderIsTidy(lay.title, lay.generated, lay.description, |items|, |KeptHashes(items, duplicates)|);
    IndexIsTidy(items, titles, anchors);
    PartsLack(items, duplicates, titles, anchors, t);
    var header := RenderHeader(lay.title, lay.generated, lay.description, |items|, |KeptHashes(items, duplicates)|);
    var index := RenderIndex(items, titles, anchors);
    hide Tidy, OnePass, Closed;
    After(header, index);
    ClosedIsLacking(header + index, t);
    AfterLacks(header + index, RenderParts(items, duplicates, titles, anchors), t);
  }

  /** An output file has a given line end with a blank before it exactly when a document that it keeps has: nothing
      that the compiler puts around or between the contents makes one. */
  lemma OutputBreaksOnlyWhereKept(lay: Layout, items: seq<Doc>, duplicates: map<string, string>, t: string)
    requires TidyLayout(lay) && BrokenEnd(t)
    ensures Contains(Newlines(OutputText(lay, items, duplicates)), t) <==> !KeptLack(items, duplicates, t)
  {
    hide OutputText, Newlines, Comparable, BrokenEnd;
    if KeptLack(items, duplicates, t) {
      OutputLacks(lay, items, duplicates, t);
      NewlinesInOnePass(OutputText(lay, items, duplicates));
    } else {
      hide Contains;
      var i :| 0 <= i < |items| && items[i].rel !in duplicates && Contains(Comparable(items[i].content), t);
      KeptDocIsFound(lay, items, duplicates, i);
      ContainsTrans(Newlines(OutputText(lay, items, duplicates)), Comparable(items[i].content), t);
    }
  }

  lemma CompiledLacks(lay: Layout, docs: seq<Doc>, isTesting: Doc -> bool, testing: bool, t: string)
    requires TidyLayout(lay) && BrokenEnd(t) && KeptLack(docs, Duplicates(docs), t)
    ensures !Contains(Newlines(Compiled(lay, docs, isTesting, testing)), t)
  {
    hide OutputText, Bucket, Duplicates, Contains, Comparable;
    var items, dups := Bucket(docs, isTesting, testing), Duplicates(docs);
    forall i | 0 <= i < |items| && items[i].rel !in dups ensures !Contains(Comparable(items[i].content), t) {
      BucketMembers(docs, isTesting, testing, items[i]);
      var j :| 0 <= j < |docs| && docs[j] == items[i];
    }
    OutputBreaksOnlyWhereKept(lay, items, dups, t);
  }

  lemma LackingIsMissing(s: Source, req: string, test: string, t: string)
    requires s.text.Some? && BrokenEnd(t) && Contains(Comparable(s.text.value), t)
    requires !Contains(req, t) && !Contains(test, t)
    ensures IsMissing(s, req, test)
  {
    hide Comparable;
    var text := Comparable(s.text.value);
    assert text != [];
    hide Contains;
    if Contains(req, text) {
      ContainsTrans(req, text, t);
    }
    if Contains(test, text) {
      ContainsTrans(test, text, t);
    }
  }

  /** A document is reported missing if it has, at the end of a line, a blank together with what is before it that no
      kept document has. */
  lemma {:induction false} OwnBrokenEndIsMissing(layR: Layout, layT: Layout, docs: seq<Doc>, isTesting: Doc -> bool,
                                                 i: nat, t: string)
    requires TidyLayout(layR) && TidyLayout(layT) && i < |docs|
    requires BrokenEnd(t) && Contains(Comparable(docs[i].content), t) && KeptLack(docs, Duplicates(docs), t)
    ensures docs[i].rel in Missing(SourcesOf(docs), Newlines(Compiled(layR, docs, isTesting, false)),
                                   Newlines(Compiled(layT, docs, isTesting, true)))
  {
    hide *;
    var req := Newlines(Compiled(layR, docs, isTesting, false));
    var test := Newlines(Compiled(layT, docs, isTesting, true));
    CompiledLacks(layR, docs, isTesting, false, t);
    CompiledLacks(layT, docs, isTesting, true, t);
    LackingIsMissing(SourcesOf(docs)[i], req, test, t);
    LineOfPresent(docs[i].rel, docs[i].content);
    MissingAre(SourcesOf(docs), req, test, docs[i].rel);
  }

  ghost predicate TidyKept(items: seq<Doc>, duplicates: map<string, string>) {
    forall i :: 0 <= i < |items| && items[i].rel !in duplicates ==> Tidy(RStrip(items[i].content))
  }

  lemma TidyKeptLack(items: seq<Doc>, duplicates: map<string, string>, t: string)
    requires TidyKept(items, duplicates) && BrokenEnd(t)
    ensures KeptLack(items, duplicates, t)
  {
    hide Tidy, BrokenEnd, RStrip, Comparable, OnePass, Contains;
    forall i | 0 <= i < |items| && items[i].rel !in duplicates ensures !Contains(Comparable(items[i].content), t) {
      TidyLacks(RStrip(items[i].content), t);
      ComparableIs(items[i].content);
    }
  }

  /** A text without CR that is not tidy has a broken line end. */
  lemma UntidyHasBrokenEnd(text: string) returns (t: string)
    requires !Tidy(Comparable(text))
    ensures BrokenEnd(t) && Contains(Comparable(text), t)
  {
    ComparableIs(text);
    NoCRAfter(RStrip(text));
    hide Comparable, OnePass;
    var s := Comparable(text);
    assert forall i :: 0 <= i < |s| ==> s[i] in s;
    var k :| 0 <= k < |s| - 1 && IsBlank(s[k]) && s[k + 1] == '\n';
    t := s[k..k + 2];
    assert OccursAt(t, s, k);
  }

  /** When the kept contents have no blank before a line end, every document that has one is reported missing. */
  lemma UntidyDocsAreMissing(layR: Layout, layT: Layout, docs: seq<Doc>, isTesting: Doc -> bool, i: nat)
    requires TidyLayout(layR) && TidyLayout(layT) && i < |docs|
    requires TidyKept(docs, Duplicates(docs))
    requires !Tidy(Comparable(docs[i].content))
    ensures docs[i].rel in Missing(SourcesOf(docs), Newlines(Compiled(layR, docs, isTesting, false)),
                                   Newlines(Compiled(layT, docs, isTesting, true)))
  {
    hide *;
    var t := UntidyHasBrokenEnd(docs[i].content);
    TidyKeptLack(docs, Duplicates(docs), t);
    OwnBrokenEndIsMissing(layR, layT, docs, isTesting, i, t);
  }

  lemma LineOfPresent(rel: string, text: string)
    ensures Line(Source(rel, Some(text))) == rel
  {
  }

  lemma TidyStaysNormal(s: string)
    requires Tidy(s)
    ensures Newlines(s) == s
  {
    NewlinesInOnePass(s);
    NothingToNormalise(s);
  }

  // ---------------------------------------------------------------------------
  // Exactly which documents are missed
  // ---------------------------------------------------------------------------

  lemma {:induction false} BlanksTrimToBlanks(w: string)
    requires All(w, IsSpace)
    ensures All(TrimLines(w), IsSpace)
  {
    if w != [] {
      BlanksTrimToBlanks(w[1..]);
    }
  }

  lemma TidyTail(r: string)
    requires Tidy(r) && EndsOutside(r, IsSpace) && r != []
    ensures Tidy(r[1..]) && EndsOutside(r[1..], IsSpace)
    ensures IsBlank(r[0]) ==> r[1..] != [] && r[1..][0] != '\n'
  {
    assert forall i :: 0 <= i < |r| - 1 ==> r[1..][i] == r[i + 1];
  }

  lemma TrimCons(c: char, s: string)
    ensures TrimLines([c] + s) == if IsBlank(c) && AtLineEnd(TrimLines(s)) then TrimLines(s) else [c] + TrimLines(s)
  {
    assert ([c] + s)[1..] == s;
  }

  lemma {:induction false} TrimmingTidyText(r: string, w: string)
    requires Tidy(r) && EndsOutside(r, IsSpace)
    ensures TrimLines(r + w) == r + TrimLines(w)
  {
    hide IsSpace;
    if r == [] {
      assert r + w == w;
    } else {
      var c, tail := r[0], r[1..];
      assert r == [c] + tail;
      TidyTail(r);
      hide Tidy, IsBlank, TrimLines, EndsOutside;
      TrimmingTidyText(tail, w);
      TrimCons(c, tail + w);
      assert IsBlank(c) ==> (tail + TrimLines(w))[0] == tail[0];
      FirstStaysInFront(c, tail, w);
      FirstStaysInFront(c, tail, TrimLines(w));
    }
  }

  lemma StripBeforeBlanks(r: string, w: string)
    requires All(w, IsSpace)
    ensures Strip(r + w) == Strip(r)
  {
    hide StripBy, IsSpace;
    var a, b := StripParts(r, IsSpace);
    assert r + w == a + Strip(r) + (b + w);
    StripIs(a, Strip(r), b + w, IsSpace);
  }

  /** The normal form of a text without blanks before line ends. */
  lemma TidyNormalForm(text: string)
    requires Tidy(Comparable(text))
    ensures NormalForm(text) == Strip(Comparable(text)) + LF
  {
    hide Strip, TrimLines, NormalForm, Tidy, IsSpace, RStripBy, OnePass, Newlines;
    var r := Comparable(text);
    var s := Newlines(text);
    var w := s[|r|..];
    assert s == r + w;
    NormalFormIs(text);
    NewlinesInOnePass(text);
    TrimmingTidyText(r, w);
    BlanksTrimToBlanks(w);
    StripBeforeBlanks(r, TrimLines(w));
  }

  lemma CoreIsInside(text: string)
    ensures Contains(Comparable(text), Strip(Comparable(text)))
  {
    hide StripBy, IsSpace;
    var a, b := StripParts(Comparable(text), IsSpace);
    ContainsMiddle(a, Strip(Comparable(text)), b);
  }

  lemma KeptIsTidy(docs: seq<Doc>, d: Doc)
    requires DistinctPaths(docs) && TidyKept(docs, Duplicates(docs)) && d in Uniques(docs)
    ensures Tidy(Comparable(d.content))
  {
    UniquesHaveDistinctHashes(docs);
    KeptIsUnique(docs, d);
    var i :| 0 <= i < |docs| && docs[i] == d;
    RStripCommutes(d.content);
    TidyStaysNormal(RStrip(d.content));
  }

  /** A document that starts with a blank may be found by accident, after a blank line of the rendering. */
  predicate StartsInLine(d: Doc) {
    StartsOutside(Comparable(d.content), IsSpace)
  }

  lemma StartedTextIsItsCore(d: Doc)
    requires StartsInLine(d)
    ensures Strip(Comparable(d.content)) == Comparable(d.content)
  {
    hide LStripBy, RStripBy, IsSpace;
    var t := Comparable(d.content);
    var none: string := [];
    assert none + t + none == t;
    StripIs(none, t, none, IsSpace);
  }

  lemma TidyDocIsSafe(docs: seq<Doc>, sha: string -> string, i: nat)
    requires DistinctPaths(docs) && Hashed(docs, sha) && TellsApart(sha, docs) && TidyKept(docs, Duplicates(docs))
    requires i < |docs| && StartsInLine(docs[i]) && Tidy(Comparable(docs[i].content))
    ensures Safe(docs, i)
  {
    hide Comparable, NormalForm, Strip, Tidy, Contains, StartsInLine;
    if IsRepeat(docs, i) {
      var d := FirstOf(docs[..i], docs[i].hash);
      RepeatsEqualTheirOriginal(docs, sha, i);
      KeptIsTidy(docs, d);
      TidyNormalForm(d.content);
      TidyNormalForm(docs[i].content);
      var a, b := Strip(Comparable(d.content)), Strip(Comparable(docs[i].content));
      assert a == (a + LF)[..|a|] && b == (b + LF)[..|b|];
      StartedTextIsItsCore(docs[i]);
      CoreIsInside(d.content);
    }
  }

  /** When the kept contents have no blank before a line end and the digest has no collisions, a document that
      does not start with a blank is reported missing exactly when it has a blank before a line end. */
  lemma MissedExactlyWhenUntidy(layR: Layout, layT: Layout, docs: seq<Doc>, isTesting: Doc -> bool,
                                sha: string -> string, i: nat)
    requires TidyLayout(layR) && TidyLayout(layT) && TidyKept(docs, Duplicates(docs))
    requires DistinctPaths(docs) && Hashed(docs, sha) && TellsApart(sha, docs)
    requires i < |docs| && StartsInLine(docs[i])
    ensures docs[i].rel in Missing(SourcesOf(docs), Newlines(Compiled(layR, docs, isTesting, false)),
                                   Newlines(Compiled(layT, docs, isTesting, true)))
       <==> !Tidy(Comparable(docs[i].content))
  {
    hide *;
    if Tidy(Comparable(docs[i].content)) {
      TidyDocIsSafe(docs, sha, i);
      CompiledDocsValidate(layR, layT, docs, isTesting);
    } else {
      UntidyDocsAreMissing(layR, layT, docs, isTesting, i);
    }
  }

  lemma TwoContentsAreEqual(a: string, b: string)
    requires a == "a\nb" && b == "a \nb"
    ensures NormalForm(a) == NormalForm(b)
  {
    var x, w, e := ['a'], [' '], ['\n', 'b'];
    assert b == x + w + e && a == x + e;
    hide NormalForm;
    NormalFormIgnoresTrailingBlanks(x, w, e);
  }

  lemma TwoContentsDiffer(a: string, b: string)
    requires a == "a\nb" && b == "a \nb"
    ensures Tidy(RStrip(a)) && !Tidy(Comparable(b))
  {
    assert EndsOutside(a, IsSpace) && EndsOutside(b, IsSpace);
    RStripCommutes(b);
    NewlinesInOnePass(b);
    NothingToNormalise(b);
    assert b[1] == ' ' && b[2] == '\n';
  }

  /** The compiled files of these two documents, equal up to one space at the end of a line, fail the check. */
  lemma CompiledDocsCanFailTheCheck(layR: Layout, layT: Layout, isTesting: Doc -> bool, sha: string -> string,
                                    p: string, q: string, a: string, b: string)
    requires TidyLayout(layR) && TidyLayout(layT) && p != q && a == "a\nb" && b == "a \nb"
    ensures var docs := [Doc(p, a, sha(NormalForm(a))), Doc(q, b, sha(NormalForm(b)))];
            q in Missing(SourcesOf(docs), Newlines(Compiled(layR, docs, isTesting, false)),
                         Newlines(Compiled(layT, docs, isTesting, true)))
  {
    TwoContentsAreEqual(a, b);
    TwoContentsDiffer(a, b);
    hide *;
    var docs := [Doc(p, a, sha(NormalForm(a))), Doc(q, b, sha(NormalForm(b)))];
    TwoEqualHashes(docs);
    OnlyFirstKept(docs);
    UntidyDocsAreMissing(layR, layT, docs, isTesting, 1);
  }

  lemma OnlyFirstKept(docs: seq<Doc>)
    requires |docs| == 2 && docs[1].rel in Duplicates(docs) && Tidy(RStrip(docs[0].content))
    ensures TidyKept(docs, Duplicates(docs))
  {
  }

  lemma TwoEqualHashes(docs: seq<Doc>)
    requires |docs| == 2 && docs[0].rel != docs[1].rel && docs[0].hash == docs[1].hash
    ensures docs[0].rel !in Duplicates(docs) && docs[1].rel in Duplicates(docs)
  {
    DuplicatesAreRepeats(docs, 0);
    DuplicatesAreRepeats(docs, 1);
    assert docs[..1][0] == docs[0];
  }
}
