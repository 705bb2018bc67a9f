/**
  `word_count` and `chapter_word_count`: the assembled manuscript is
  normalised once more and split on whitespace; the project count
  subtracts the configured offset, the chapter counts do not.
 */
module WordCounter {
  import opened Strings
  import opened Ordering
  import opened Normalizer
  import opened Assembler
  import opened Dict
  import opened Chapters

  /** The whitespace-separated tokens of the manuscript once it is normalised again. */
  function ManuscriptWords(walk: Walk, table: Table): nat {
    |Split(Normalize(Manuscript(walk, MarkdownOnly, table), table))|
  }

  /** The project word count: the manuscript's tokens less the offset, not clamped. */
  function ProjectCount(walk: Walk, table: Table, offset: int): int {
    ManuscriptWords(walk, table) - offset
  }

  /** `word_count`: assemble, normalise again, split, subtract the offset. */
  method WordCount(walk: Walk, table: Table, offset: int) returns (n: int)
    ensures n == ProjectCount(walk, table, offset)
  {
    var text := PreProcess(walk, table);
    text := NormalizeMarkdown(text, table);
    n := |Split(text)| - offset;
  }

  /** The offset is subtracted even below zero: an empty project with an offset of 5 counts -5. */
  lemma NotClamped(offset: int)
    ensures ProjectCount([], [], offset) == -offset
  {
    EmptyTree(MarkdownOnly, []);
    var m := Manuscript([], MarkdownOnly, []);
    assert Strip(m) == [] by {
      StripTrimmed([], []);
    }
  }

  // ---------------------------------------------------------------- the second normalisation

  /**
    A fragment the second normalisation leaves alone: non-empty and
    trimmed, without a `-` and without three newlines in a row.
   */
  predicate Paragraph(f: string) {
    Trimmed(f) && '-' !in f && !Contains(f, "\n\n\n")
  }

  predicate AllParagraphs(dirs: seq<seq<string>>) {
    forall i, j :: 0 <= i < |dirs| && 0 <= j < |dirs[i]| ==> Paragraph(dirs[i][j])
  }

  /** Every fragment of every directory, in order. */
  function Flatten(dirs: seq<seq<string>>): seq<string> {
    if dirs == [] then [] else Flatten(dirs[..|dirs| - 1]) + dirs[|dirs| - 1]
  }

  /**
    The directories' fragments joined by `glue` inside a directory and by
    a blank line between directories; directories without fragments add
    nothing.
   */
  function Body(dirs: seq<seq<string>>, glue: string): string {
    if dirs == [] then []
    else
      var b := Body(dirs[..|dirs| - 1], glue);
      var last := dirs[|dirs| - 1];
      if last == [] then b
      else if b == [] then Join(last, glue)
      else b + "\n\n" + Join(last, glue)
  }

  lemma AllParagraphsInit(dirs: seq<seq<string>>, n: nat)
    requires n + 1 == |dirs| && AllParagraphs(dirs)
    ensures AllParagraphs(dirs[..n])
    ensures forall j :: 0 <= j < |dirs[n]| ==> Paragraph(dirs[n][j])
  {
    var init := dirs[..|dirs| - 1];
    assert forall i :: 0 <= i < |init| ==> init[i] == dirs[i];
  }

  /** Trimmed parts joined by any glue give trimmed text. */
  lemma {:induction false} JoinTrimmed(parts: seq<string>, glue: string)
    requires parts != [] && forall j :: 0 <= j < |parts| ==> Trimmed(parts[j])
    ensures Trimmed(Join(parts, glue))
  {
    if |parts| > 1 {
      JoinTrimmed(parts[1..], glue);
      var j := Join(parts[1..], glue);
      var r := parts[0] + glue + j;
      assert r[0] == parts[0][0];
      assert r[|r| - 1] == j[|j| - 1];
    }
  }

  /** The body is empty exactly when there is no fragment, and otherwise trimmed. */
  lemma {:induction false} BodyTrimmed(dirs: seq<seq<string>>, glue: string)
    requires AllParagraphs(dirs)
    ensures Body(dirs, glue) == [] <==> Flatten(dirs) == []
    ensures Body(dirs, glue) != [] ==> Trimmed(Body(dirs, glue))
  {
    if dirs != [] {
      var init := dirs[..|dirs| - 1];
      var last := dirs[|dirs| - 1];
      AllParagraphsInit(dirs, |dirs| - 1);
      BodyTrimmed(init, glue);
      var b := Body(init, glue);
      if last != [] {
        JoinTrimmed(last, glue);
        var j := Join(last, glue);
        if b != [] {
          var r := b + "\n\n" + j;
          assert r[0] == b[0] && r[|r| - 1] == j[|j| - 1];
        }
      }
    }
  }

  /** When every fragment is a paragraph, the assembled text is the body with separators, closed by a blank line. */
  lemma {:induction false} BlocksBody(dirs: seq<seq<string>>)
    requires AllParagraphs(dirs)
    ensures Blocks(dirs) == if Flatten(dirs) == [] then [] else Body(dirs, Separator) + "\n\n"
  {
    if dirs != [] {
      var init := dirs[..|dirs| - 1];
      var last := dirs[|dirs| - 1];
      AllParagraphsInit(dirs, |dirs| - 1);
      BlocksBody(init);
      BodyTrimmed(init, Separator);
      var b := Body(init, Separator);
      if last != [] && b != [] {
        var j := Join(last, Separator);
        AppendAssoc(b + "\n\n", j, "\n\n");
      }
    }
  }

  // ---------------------------------------------------------------- step by step

  /** The first rule deletion turns a separator into three newlines. */
  lemma SeparatorDeleted(z: string)
    ensures ReplaceAll(Separator + z, "----\n", "") == "\n\n\n" + ReplaceAll(z, "----\n", "")
  {
    var pat := "----\n";
    assert Separator + z == "\n\n" + ("----\n" + ("\n" + z));
    ReplaceThrough("\n\n", "----\n" + ("\n" + z), pat, "");
    ReplaceHead("----\n" + ("\n" + z), pat, "");
    assert ("----\n" + ("\n" + z))[|pat|..] == "\n" + z;
    ReplaceThrough("\n", z, pat, "");
  }

  /** The first rule deletion passes over a blank line. */
  lemma BlankKept(z: string, pat: string)
    requires pat != [] && pat[0] != '\n'
    ensures ReplaceAll("\n\n" + z, pat, "") == "\n\n" + ReplaceAll(z, pat, "")
  {
    ReplaceThrough("\n\n", z, pat, "");
  }

  /** A paragraph at the front passes through a deletion of a pattern made of `-` and newlines. */
  lemma ParagraphFront(f: string, z: string, pat: string, rep: string)
    requires Paragraph(f) && pat != [] && forall c :: c in pat ==> c == '-' || c == '\n'
    ensures ReplaceAll(f + z, pat, rep) == ReplaceAll(f, pat, rep) + ReplaceAll(z, pat, rep)
  {
    assert f[|f| - 1] != '-' && f[|f| - 1] != '\n';
    ReplaceConcat(f, z, pat, rep);
  }

  /** Within a directory, the first rule deletion turns every separator into three newlines. */
  lemma {:induction false} JoinRulesDeleted(parts: seq<string>)
    requires parts != [] && forall j :: 0 <= j < |parts| ==> Paragraph(parts[j])
    ensures ReplaceAll(Join(parts, Separator), "----\n", "") == Join(parts, "\n\n\n")
  {
    var f := parts[0];
    ReplaceMissingChar(f, "----\n", "", '-');
    if |parts| > 1 {
      var rest := parts[1..];
      JoinRulesDeleted(rest);
      var j := Join(rest, Separator);
      AppendAssoc(f, Separator, j);
      ParagraphFront(f, Separator + j, "----\n", "");
      SeparatorDeleted(j);
      AppendAssoc(f, "\n\n\n", Join(rest, "\n\n\n"));
    }
  }

  /** The first rule deletion passes over the blank line between two directories. */
  lemma GlueRulesDeleted(b: string, j: string)
    requires b != [] && b[|b| - 1] != '-' && b[|b| - 1] != '\n'
    ensures ReplaceAll(b + "\n\n" + j, "----\n", "") ==
      ReplaceAll(b, "----\n", "") + "\n\n" + ReplaceAll(j, "----\n", "")
  {
    AppendAssoc(b, "\n\n", j);
    ReplaceConcat(b, "\n\n" + j, "----\n", "");
    BlankKept(j, "----\n");
  }

  /** The first rule deletion on the whole body. */
  lemma {:induction false} BodyRulesDeleted(dirs: seq<seq<string>>)
    requires AllParagraphs(dirs)
    ensures ReplaceAll(Body(dirs, Separator), "----\n", "") == Body(dirs, "\n\n\n")
  {
    if dirs != [] {
      var init := dirs[..|dirs| - 1];
      var last := dirs[|dirs| - 1];
      AllParagraphsInit(dirs, |dirs| - 1);
      BodyRulesDeleted(init);
      BodyTrimmed(init, Separator);
      BodyTrimmed(init, "\n\n\n");
      var b := Body(init, Separator);
      if last != [] {
        JoinRulesDeleted(last);
        if b != [] {
          BodyEnd(init, Separator);
          assert !IsSpace(b[|b| - 1]);
          GlueRulesDeleted(b, Join(last, Separator));
        }
      }
    }
  }

  /** The body ends with the last character of its last fragment, never a `-`. */
  lemma {:induction false} BodyEnd(dirs: seq<seq<string>>, glue: string)
    requires AllParagraphs(dirs) && Body(dirs, glue) != []
    ensures Body(dirs, glue)[|Body(dirs, glue)| - 1] != '-'
  {
    var init := dirs[..|dirs| - 1];
    var last := dirs[|dirs| - 1];
    AllParagraphsInit(dirs, |dirs| - 1);
    if last == [] {
      BodyEnd(init, glue);
    } else {
      JoinEnd(last, glue);
      var j := Join(last, glue);
      var b := Body(init, glue);
      if b != [] {
        assert (b + "\n\n" + j)[|b + "\n\n" + j| - 1] == j[|j| - 1];
      }
    }
  }

  lemma {:induction false} JoinEnd(parts: seq<string>, glue: string)
    requires parts != [] && forall j :: 0 <= j < |parts| ==> Paragraph(parts[j])
    ensures Join(parts, glue) != [] && Join(parts, glue)[|Join(parts, glue)| - 1] != '-'
  {
    if |parts| > 1 {
      JoinEnd(parts[1..], glue);
      var j := Join(parts[1..], glue);
      assert (parts[0] + glue + j)[|parts[0] + glue + j| - 1] == j[|j| - 1];
    } else {
      assert parts[0][|parts[0]| - 1] in parts[0];
    }
  }

  /** No `-` is left once the separators are gone. */
  lemma {:induction false} BodyNoDash(dirs: seq<seq<string>>)
    requires AllParagraphs(dirs)
    ensures '-' !in Body(dirs, "\n\n\n")
  {
    if dirs != [] {
      var init := dirs[..|dirs| - 1];
      var last := dirs[|dirs| - 1];
      AllParagraphsInit(dirs, |dirs| - 1);
      BodyNoDash(init);
      if last != [] {
        GlueNoDash(last, "\n\n\n");
      }
    }
  }

  lemma {:induction false} GlueNoDash(parts: seq<string>, glue: string)
    requires '-' !in glue && forall j :: 0 <= j < |parts| ==> '-' !in parts[j]
    ensures '-' !in Join(parts, glue)
  {
    if |parts| > 1 {
      GlueNoDash(parts[1..], glue);
    }
  }

  /** Within a directory, the collapse pass turns every three newlines between fragments into two. */
  lemma {:induction false} JoinCollapsed(parts: seq<string>)
    requires parts != [] && forall j :: 0 <= j < |parts| ==> Paragraph(parts[j])
    ensures ReplaceAll(Join(parts, "\n\n\n"), "\n\n\n", "\n\n") == Join(parts, "\n\n")
  {
    var f := parts[0];
    ReplaceAbsent(f, "\n\n\n", "\n\n");
    if |parts| > 1 {
      var rest := parts[1..];
      JoinCollapsed(rest);
      var j := Join(rest, "\n\n\n");
      AppendAssoc(f, "\n\n\n", j);
      ParagraphFront(f, "\n\n\n" + j, "\n\n\n", "\n\n");
      ReplaceHead("\n\n\n" + j, "\n\n\n", "\n\n");
      assert ("\n\n\n" + j)[3..] == j;
      AppendAssoc(f, "\n\n", Join(rest, "\n\n"));
    }
  }

  /** A blank line before text that does not start with a newline survives the collapse pass. */
  lemma BlankBeforeText(z: string)
    requires z != [] && z[0] != '\n'
    ensures ReplaceAll("\n\n" + z, "\n\n\n", "\n\n") == "\n\n" + ReplaceAll(z, "\n\n\n", "\n\n")
  {
    var pat := "\n\n\n";
    var s := "\n\n" + z;
    MismatchNotStart(s, pat, 2);
    ReplaceSkip(s, pat, "\n\n");
    assert s[1..] == "\n" + z;
    MismatchNotStart("\n" + z, pat, 1);
    ReplaceSkip("\n" + z, pat, "\n\n");
    assert ("\n" + z)[1..] == z;
  }

  /** The collapse pass on the whole body. */
  lemma {:induction false} BodyCollapsed(dirs: seq<seq<string>>)
    requires AllParagraphs(dirs)
    ensures ReplaceAll(Body(dirs, "\n\n\n"), "\n\n\n", "\n\n") == Body(dirs, "\n\n")
  {
    if dirs != [] {
      var init := dirs[..|dirs| - 1];
      var last := dirs[|dirs| - 1];
      AllParagraphsInit(dirs, |dirs| - 1);
      BodyCollapsed(init);
      BodyTrimmed(init, "\n\n\n");
      var b := Body(init, "\n\n\n");
      if last != [] {
        JoinCollapsed(last);
        if b != [] {
          var j := Join(last, "\n\n\n");
          JoinTrimmed(last, "\n\n\n");
          AppendAssoc(b, "\n\n", j);
          ReplaceConcat(b, "\n\n" + j, "\n\n\n", "\n\n");
          BlankBeforeText(j);
          AppendAssoc(Body(init, "\n\n"), "\n\n", Join(last, "\n\n"));
        }
      }
    }
  }

  /** With blank lines for glue everywhere, the body is all fragments joined by blank lines. */
  lemma {:induction false} BodyJoin(dirs: seq<seq<string>>)
    requires AllParagraphs(dirs)
    ensures Body(dirs, "\n\n") == Join(Flatten(dirs), "\n\n")
  {
    if dirs != [] {
      var init := dirs[..|dirs| - 1];
      var last := dirs[|dirs| - 1];
      AllParagraphsInit(dirs, |dirs| - 1);
      BodyJoin(init);
      BodyTrimmed(init, "\n\n");
      if last == [] {
        assert Flatten(dirs) == Flatten(init) + [];
        assert Flatten(init) + [] == Flatten(init);
      } else if Flatten(init) == [] {
        assert Flatten(dirs) == [] + last;
        assert [] + last == last;
      } else {
        JoinAppend(Flatten(init), last, "\n\n");
      }
    }
  }

  /** Fragments joined by blank lines split into the tokens of each fragment in turn. */
  lemma {:induction false} SplitJoinBlank(parts: seq<string>)
    ensures Split(Join(parts, "\n\n")) == SplitEach(parts)
  {
    if |parts| == 1 {
      assert SplitEach(parts) == Split(parts[0]) + SplitEach([]);
    } else if |parts| > 1 {
      var f := parts[0];
      var j := Join(parts[1..], "\n\n");
      SplitJoinBlank(parts[1..]);
      SplitAllSpace("\n\n");
      SplitAppend(f, "\n\n");
      SplitAppend(f + "\n\n", j);
    }
  }

  /**
    Normalising the assembled manuscript again removes every rule the
    assembly put in: when every fragment is a paragraph, the result is the
    fragments joined by blank lines, and its tokens are the fragments'
    tokens, so the rules count for nothing.
   */
  lemma Renormalized(walk: Walk, sel: Selection)
    requires AllParagraphs(DirFragments(walk, sel, []))
    ensures Normalize(Manuscript(walk, sel, []), []) == Join(Flatten(DirFragments(walk, sel, [])), "\n\n")
    ensures Split(Normalize(Manuscript(walk, sel, []), [])) == SplitEach(Flatten(DirFragments(walk, sel, [])))
  {
    var dirs := DirFragments(walk, sel, []);
    assert Manuscript(walk, sel, []) == Blocks(dirs) by {
      assert NoDashEnds(dirs);
      AssembledBlocks(dirs);
    }
    NormalizeBlocks(dirs);
    SplitJoinBlank(Flatten(dirs));
  }

  /** The second normalisation of the assembled paragraphs leaves them joined by blank lines. */
  lemma NormalizeBlocks(dirs: seq<seq<string>>)
    requires AllParagraphs(dirs)
    ensures Normalize(Blocks(dirs), []) == Join(Flatten(dirs), "\n\n")
  {
    BlocksBody(dirs);
    if Flatten(dirs) == [] {
      StripTrimmed([], []);
    } else {
      NormalizeBody(dirs);
    }
  }

  lemma NormalizeBody(dirs: seq<seq<string>>)
    requires AllParagraphs(dirs) && Flatten(dirs) != []
    ensures Normalize(Body(dirs, Separator) + "\n\n", []) == Join(Flatten(dirs), "\n\n")
  {
    BodyTrimmed(dirs, Separator);
    BodyTrimmed(dirs, "\n\n\n");
    StripTrimmed(Body(dirs, Separator), "\n\n");
    BodyRulesDeleted(dirs);
    BodyNoDash(dirs);
    DashPassesIdle(Body(dirs, "\n\n\n"));
    BodyCollapsed(dirs);
    BodyJoin(dirs);
  }

  /** So the project count is the fragments' tokens less the offset. */
  lemma CountOfParagraphs(walk: Walk, offset: int)
    requires AllParagraphs(DirFragments(walk, MarkdownOnly, []))
    ensures ProjectCount(walk, [], offset) == |SplitEach(Flatten(DirFragments(walk, MarkdownOnly, [])))| - offset
  {
    Renormalized(walk, MarkdownOnly);
  }

  // ---------------------------------------------------------------- chapter word counts

  /** The heading line the chapter report starts with. */
  const Banner: string := "  -------------- Chapter Word Counts -----------------"

  /** `s.rjust(width)`: spaces in front up to `width` characters; a longer `s` is kept whole. */
  function RJust(s: string, width: nat): (r: string)
    ensures |r| == if |s| < width then width else |s|
    ensures EndsWith(r, s) && forall i :: 0 <= i < |r| - |s| ==> r[i] == ' '
  {
    if |s| < width then Spaces(width - |s|) + s else s
  }

  function Spaces(n: nat): (r: string)
    ensures |r| == n && forall i :: 0 <= i < n ==> r[i] == ' '
  {
    if n == 0 then [] else Spaces(n - 1) + " "
  }

  /** The longest chapter name, or 0 when there is no chapter. */
  function KeyWidth(book: Book): nat {
    if book == [] then 0
    else
      var w := KeyWidth(book[..|book| - 1]);
      var n := |book[|book| - 1].0|;
      if n > w then n else w
  }

  /** The width is an upper bound on the names' lengths that one of them reaches. */
  lemma {:induction false} KeyWidthIsMax(book: Book)
    ensures forall i :: 0 <= i < |book| ==> |book[i].0| <= KeyWidth(book)
    ensures book != [] ==> exists i :: 0 <= i < |book| && |book[i].0| == KeyWidth(book)
  {
    if book != [] {
      var init := book[..|book| - 1];
      KeyWidthIsMax(init);
      assert forall i :: 0 <= i < |init| ==> init[i] == book[i];
      if init != [] && KeyWidth(init) >= |book[|book| - 1].0| {
        var i :| 0 <= i < |init| && |init[i].0| == KeyWidth(init);
        assert |book[i].0| == KeyWidth(book);
      } else {
        assert |book[|book| - 1].0| == KeyWidth(book);
      }
    }
  }

  /** One report line: the right-aligned chapter name, a colon, and the chapter's token count. */
  function ReportLine(key: string, count: nat, width: nat): string {
    RJust(key, width) + ": " + Render(count)
  }

  /** Each chapter's name with the number of whitespace-separated tokens in its text. */
  function Tally(book: Book): (r: seq<(string, nat)>)
    ensures |r| == |book|
  {
    seq(|book|, i requires 0 <= i < |book| => (book[i].0, |Split(book[i].1)|))
  }

  /** The first loop of `chapter_word_count`: the widest chapter name. */
  method ChapterWidth(book: Book) returns (w: nat)
    ensures w == KeyWidth(book)
  {
    w := 0;
    var i := 0;
    while i < |book|
      invariant 0 <= i <= |book|
      invariant w == KeyWidth(book[..i])
    {
      assert book[..i + 1][..i] == book[..i];
      if |book[i].0| > w {
        w := |book[i].0|;
      }
      i := i + 1;
    }
    assert book[..|book|] == book;
  }

  /** The chapter lines of the report, in the dictionary's order. */
  function Lines(tally: seq<(string, nat)>, width: nat): (r: seq<string>)
    ensures |r| == |tally|
  {
    if tally == [] then []
    else
      var last := tally[|tally| - 1];
      Lines(tally[..|tally| - 1], width) + [ReportLine(last.0, last.1, width)]
  }

  /** Line `i` of the report is the line for the `i`-th chapter. */
  lemma {:induction false} LinesAt(tally: seq<(string, nat)>, width: nat, i: nat)
    requires i < |tally|
    ensures Lines(tally, width)[i] == ReportLine(tally[i].0, tally[i].1, width)
  {
    var init := tally[..|tally| - 1];
    if i < |init| {
      LinesAt(init, width, i);
      assert init[i] == tally[i];
    }
  }

  /** The second loop of `chapter_word_count`: the banner, then one line per chapter. */
  method Report(book: Book) returns (report: seq<string>)
    ensures report == [Banner] + Lines(Tally(book), KeyWidth(book))
  {
    var w := ChapterWidth(book);
    ghost var tally := Tally(book);
    var lines: seq<string> := [];
    var i := 0;
    while i < |book|
      invariant 0 <= i <= |book|
      invariant lines == Lines(tally[..i], w)
    {
      var n := |Split(book[i].1)|;
      LinesSnoc(tally, w, i);
      lines := lines + [ReportLine(book[i].0, n, w)];
      i := i + 1;
    }
    assert tally[..|book|] == tally;
    report := [Banner] + lines;
  }

  lemma LinesSnoc(tally: seq<(string, nat)>, w: nat, i: nat)
    requires i < |tally|
    ensures Lines(tally[..i + 1], w) == Lines(tally[..i], w) + [ReportLine(tally[i].0, tally[i].1, w)]
  {
    assert tally[..i + 1][..i] == tally[..i];
  }

  /** `chapter_word_count`: the report on the chapter dictionary. No offset is subtracted. */
  method ChapterWordCount(walk: Walk, table: Table) returns (report: seq<string>)
    ensures var book := ChapterBook(walk, table);
      report == [Banner] + Lines(Tally(book), KeyWidth(book))
  {
    var book := PreProcessChapters(walk, table);
    report := Report(book);
  }

  /** In every report line the colon sits in the same column, just after the name. */
  lemma ReportAligned(book: Book, i: nat)
    requires i < |book|
    ensures var w := KeyWidth(book);
      var line := Lines(Tally(book), w)[i];
      |line| > w + 2 && line[w..w + 2] == ": " && EndsWith(line[..w], book[i].0)
  {
    KeyWidthIsMax(book);
    var w := KeyWidth(book);
    var t := Tally(book);
    LinesAt(t, w, i);
    LineAligned(t[i].0, t[i].1, w);
  }

  /** A line whose name fits the width has its colon at the width, the name right-aligned before it. */
  lemma LineAligned(key: string, count: nat, w: nat)
    requires |key| <= w
    ensures var line := ReportLine(key, count, w);
      |line| > w + 2 && line[w..w + 2] == ": " && EndsWith(line[..w], key)
  {
    var r := RJust(key, w);
    var line := r + ": " + Render(count);
    assert line[..w] == r;
    assert line[w..w + 2] == ": ";
  }

  /** A chapter splits into the tokens of its fragments: the blank lines between them add none. */
  lemma ParagraphsTokens(frags: seq<string>)
    ensures Split(Paragraphs(frags)) == SplitEach(frags)
  {
    if frags != [] {
      ParagraphsJoin(frags);
      var j := Join(frags, "\n\n");
      SplitAppend(j, "\n\n");
      SplitAllSpace("\n\n");
      SplitJoinBlank(frags);
      assert Split(j) + [] == Split(j);
    }
  }

  /**
    A chapter's count is the number of tokens of every fragment filed
    under its name, rules and blank lines contributing none.
   */
  lemma ChapterCount(walk: Walk, table: Table, key: string)
    ensures var book := ChapterBook(walk, table);
      Split(Text(book, key)) == SplitEach(FragmentsOf(ChapterDirs(walk, table), key))
  {
    ChaptersContents(ChapterDirs(walk, table));
    ParagraphsTokens(FragmentsOf(ChapterDirs(walk, table), key));
  }

  /** The count on each report line is the token count of the fragments filed under that chapter. */
  lemma ReportCount(walk: Walk, table: Table, i: nat)
    requires i < |ChapterBook(walk, table)|
    ensures var book := ChapterBook(walk, table);
      Tally(book)[i] == (book[i].0, |SplitEach(FragmentsOf(ChapterDirs(walk, table), book[i].0))|)
  {
    var book := ChapterBook(walk, table);
    ChaptersContents(ChapterDirs(walk, table));
    GetEntry(book, i);
    ChapterCount(walk, table, book[i].0);
  }
}
