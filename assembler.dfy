/**
  `pre_process`: the manuscript tree is walked with its directories in
  sorted order and each directory's files in sorted name order; every
  selected file is normalised and appended with a horizontal rule after
  it, and at the end of each directory one trailing rule, if there is
  one, becomes a blank line.
 */
module Assembler {
  import opened Strings
  import opened Ordering
  import opened Normalizer

  /** The Markdown horizontal rule written after every fragment. */
  const Separator: string := "\n\n----\n\n"

  /** A file of the tree: its name and its contents. */
  type File = (string, string)

  /**
    What `os.walk` yields, reduced to what the assembler uses: each
    visited directory's path with the files directly inside it.
   */
  type Walk = seq<(string, seq<File>)>

  /** Which files a pass takes: `.md` files only, or every file. */
  datatype Selection = MarkdownOnly | EveryFile

  predicate Selects(sel: Selection, name: string) {
    sel == EveryFile || EndsWith(name, ".md")
  }

  /** The normalised contents of the selected files, in the order given. */
  function Fragments(files: seq<File>, sel: Selection, table: Table): (r: seq<string>)
    ensures |r| <= |files|
  {
    if files == [] then []
    else
      var rest := Fragments(files[..|files| - 1], sel, table);
      var last := files[|files| - 1];
      if Selects(sel, last.0) then rest + [Normalize(last.1, table)] else rest
  }

  /** One file more: its fragment is added exactly when it is selected. */
  lemma FragmentsSnoc(files: seq<File>, j: nat, sel: Selection, table: Table)
    requires j < |files|
    ensures Fragments(files[..j + 1], sel, table) ==
      if Selects(sel, files[j].0) then Fragments(files[..j], sel, table) + [Normalize(files[j].1, table)]
      else Fragments(files[..j], sel, table)
  {
    assert files[..j + 1][..j] == files[..j];
  }

  /** There are no fragments exactly when no file is selected. */
  lemma {:induction false} FragmentsNone(files: seq<File>, sel: Selection, table: Table)
    ensures Fragments(files, sel, table) == [] <==> forall i :: 0 <= i < |files| ==> !Selects(sel, files[i].0)
  {
    if files != [] {
      var init := files[..|files| - 1];
      FragmentsNone(init, sel, table);
      assert forall i :: 0 <= i < |init| ==> init[i] == files[i];
    }
  }

  /** Taking every file, there is one fragment per file. */
  lemma {:induction false} FragmentsEveryLength(files: seq<File>, table: Table)
    ensures |Fragments(files, EveryFile, table)| == |files|
  {
    if files != [] {
      FragmentsEveryLength(files[..|files| - 1], table);
    }
  }

  /** Taking every file, the fragments of all files but the last begin the fragments of all of them. */
  lemma FragmentsEveryInit(files: seq<File>, table: Table)
    requires files != []
    ensures var q := Fragments(files[..|files| - 1], EveryFile, table);
      |Fragments(files, EveryFile, table)| == |q| + 1 && Fragments(files, EveryFile, table)[..|q|] == q
  {
    var n := |files| - 1;
    assert files[..n + 1] == files;
    FragmentsSnoc(files, n, EveryFile, table);
    InitOfSnoc(Fragments(files[..n], EveryFile, table), Normalize(files[n].1, table));
  }

  /** The sequence with one element added, cut back to the old length. */
  lemma InitOfSnoc<T>(q: seq<T>, x: T)
    ensures |q + [x]| == |q| + 1 && (q + [x])[..|q|] == q
  {
  }

  /** Taking every file, the first `j` files give the first `j` fragments. */
  lemma {:induction false} FragmentsEveryPrefix(files: seq<File>, table: Table, j: nat)
    requires j <= |files|
    ensures j <= |Fragments(files, EveryFile, table)|
    ensures Fragments(files[..j], EveryFile, table) == Fragments(files, EveryFile, table)[..j]
  {
    FragmentsEveryLength(files, table);
    if j < |files| {
      var init := files[..|files| - 1];
      FragmentsEveryPrefix(init, table, j);
      FragmentsEveryLength(init, table);
      FragmentsEveryInit(files, table);
      assert init[..j] == files[..j];
      TakeOfPrefix(Fragments(files, EveryFile, table), Fragments(init, EveryFile, table), j);
    } else {
      assert files[..j] == files;
    }
  }

  /** Cutting a sequence shorter than its prefix `a` is cutting `a`. */
  lemma TakeOfPrefix<T>(b: seq<T>, a: seq<T>, j: nat)
    requires |a| <= |b| && b[..|a|] == a && j <= |a|
    ensures b[..j] == a[..j]
  {
    assert forall k :: 0 <= k < j ==> b[k] == b[..|a|][k];
  }

  /** The element just past `init` in a sequence that starts with `init + [x]`. */
  lemma PrefixLast<T>(whole: seq<T>, init: seq<T>, x: T)
    requires |init| < |whole| && whole[..|init| + 1] == init + [x]
    ensures whole[|init|] == x
  {
    assert whole[|init|] == whole[..|init| + 1][|init|];
  }

  /** Taking every file, fragment `i` is file `i`'s normalised contents. */
  lemma FragmentsEveryAt(files: seq<File>, table: Table, i: nat)
    requires i < |files|
    ensures i < |Fragments(files, EveryFile, table)|
    ensures Fragments(files, EveryFile, table)[i] == Normalize(files[i].1, table)
  {
    FragmentsEveryPrefix(files, table, i + 1);
    FragmentsEveryLength(files[..i], table);
    FragmentsSnoc(files, i, EveryFile, table);
    PrefixLast(Fragments(files, EveryFile, table), Fragments(files[..i], EveryFile, table), Normalize(files[i].1, table));
  }

  /** The files a pass takes, in the order given. */
  function Selected(files: seq<File>, sel: Selection): (r: seq<File>)
    ensures forall f :: f in r <==> f in files && Selects(sel, f.0)
  {
    if files == [] then []
    else
      var init := files[..|files| - 1];
      var last := files[|files| - 1];
      assert files == init + [last];
      if Selects(sel, last.0) then Selected(init, sel) + [last] else Selected(init, sel)
  }

  /**
    The fragments are the normalised contents of exactly the selected
    files (the `.md` files, or every file), in the order given.
   */
  lemma {:induction false} FragmentsSelected(files: seq<File>, sel: Selection, table: Table)
    ensures Fragments(files, sel, table) == Fragments(Selected(files, sel), EveryFile, table)
  {
    if files != [] {
      var init := files[..|files| - 1];
      var last := files[|files| - 1];
      FragmentsSelected(init, sel, table);
      if Selects(sel, last.0) {
        var q := Selected(init, sel);
        assert (q + [last])[..|q|] == q;
      }
    }
  }

  /** Fragment `i` is the normalised contents of the `i`-th selected file, and there is one per selected file. */
  lemma FragmentsSelectedAt(files: seq<File>, sel: Selection, table: Table, i: nat)
    requires i < |Selected(files, sel)|
    ensures |Fragments(files, sel, table)| == |Selected(files, sel)|
    ensures Fragments(files, sel, table)[i] == Normalize(Selected(files, sel)[i].1, table)
  {
    FragmentsSelected(files, sel, table);
    FragmentsEveryLength(Selected(files, sel), table);
    FragmentsEveryAt(Selected(files, sel), table, i);
  }

  /** Each directory's fragments, directories sorted by path and files by name. */
  function DirFragments(walk: Walk, sel: Selection, table: Table): (r: seq<seq<string>>)
    ensures |r| == |walk|
  {
    var dirs := SortByKey(walk);
    seq(|dirs|, i requires 0 <= i < |dirs| => Fragments(SortByKey(dirs[i].1), sel, table))
  }

  /** The text after appending each fragment followed by the separator. */
  function Appended(acc: string, frags: seq<string>): string {
    if frags == [] then acc
    else Appended(acc, frags[..|frags| - 1]) + frags[|frags| - 1] + Separator
  }

  lemma AppendedSnoc(acc: string, frags: seq<string>, x: string)
    ensures Appended(acc, frags + [x]) == Appended(acc, frags) + x + Separator
  {
    assert (frags + [x])[..|frags|] == frags;
  }

  /** The end of a directory: a trailing separator becomes a blank line. */
  function CloseDir(t: string): string {
    if EndsWith(t, Separator) then t[..|t| - |Separator|] + "\n\n" else t
  }

  function DirStep(acc: string, frags: seq<string>): string {
    CloseDir(Appended(acc, frags))
  }

  /** The manuscript after each directory's fragments in turn. */
  function Assembled(dirs: seq<seq<string>>): string {
    if dirs == [] then [] else DirStep(Assembled(dirs[..|dirs| - 1]), dirs[|dirs| - 1])
  }

  lemma AssembledSnoc(dirs: seq<seq<string>>, i: nat)
    requires i < |dirs|
    ensures Assembled(dirs[..i + 1]) == DirStep(Assembled(dirs[..i]), dirs[i])
  {
    assert dirs[..i + 1][..i] == dirs[..i];
  }

  /** Closing a directory leaves text that is empty or ends with a blank line. */
  lemma DirStepEnds(acc: string, frags: seq<string>)
    requires acc == [] || EndsWith(acc, "\n\n")
    ensures var r := DirStep(acc, frags); r == [] || EndsWith(r, "\n\n")
  {
    if frags != [] {
      AppendedJoin(acc, frags);
      var u := acc + Join(frags, Separator);
      assert Appended(acc, frags) == u + Separator;
      assert (u + Separator)[..|u|] == u;
    }
  }

  lemma {:induction false} AssembledEnds(dirs: seq<seq<string>>)
    ensures var r := Assembled(dirs); r == [] || EndsWith(r, "\n\n")
  {
    if dirs != [] {
      AssembledEnds(dirs[..|dirs| - 1]);
      DirStepEnds(Assembled(dirs[..|dirs| - 1]), dirs[|dirs| - 1]);
    }
  }

  /** The text `pre_process` returns for a walk: empty, or ending with a blank line. */
  function Manuscript(walk: Walk, sel: Selection, table: Table): (r: string)
    ensures r == [] || EndsWith(r, "\n\n")
  {
    AssembledEnds(DirFragments(walk, sel, table));
    Assembled(DirFragments(walk, sel, table))
  }

  /** The body of the outer loop: one directory's files in order, then the close of the directory. */
  method AddDirectory(text: string, files: seq<File>, table: Table) returns (r: string)
    ensures r == DirStep(text, Fragments(files, MarkdownOnly, table))
  {
    r := text;
    var j := 0;
    while j < |files|
      invariant 0 <= j <= |files|
      invariant r == Appended(text, Fragments(files[..j], MarkdownOnly, table))
    {
      FragmentsSnoc(files, j, MarkdownOnly, table);
      if EndsWith(files[j].0, ".md") {
        var contents := NormalizeMarkdown(files[j].1, table);
        AppendedSnoc(text, Fragments(files[..j], MarkdownOnly, table), contents);
        r := r + contents + Separator;
      }
      j := j + 1;
    }
    assert files[..|files|] == files;
    if EndsWith(r, Separator) {
      r := r[..|r| - |Separator|] + "\n\n";
    }
  }

  /** `pre_process`: the directories in sorted order, each directory's files in sorted order. */
  method PreProcess(walk: Walk, table: Table) returns (text: string)
    ensures text == Manuscript(walk, MarkdownOnly, table)
  {
    var dirs := SortByKey(walk);
    text := AddDirectories(dirs, DirFragments(walk, MarkdownOnly, table), table);
  }

  /** The outer loop of `pre_process` over directories already in walk order. */
  method AddDirectories(dirs: Walk, ghost frags: seq<seq<string>>, table: Table) returns (text: string)
    requires |frags| == |dirs|
    requires forall i :: 0 <= i < |dirs| ==> frags[i] == Fragments(SortByKey(dirs[i].1), MarkdownOnly, table)
    ensures text == Assembled(frags)
  {
    text := "";
    var i := 0;
    while i < |dirs|
      invariant 0 <= i <= |dirs|
      invariant text == Assembled(frags[..i])
    {
      var files := SortByKey(dirs[i].1);
      AssembledSnoc(frags, i);
      text := AddDirectory(text, files, table);
      i := i + 1;
    }
    assert frags[..|dirs|] == frags;
  }

  // ---------------------------------------------------------------- blocks

  /** A directory's block: its fragments joined by the separator and closed by a blank line. */
  function Block(frags: seq<string>): string {
    if frags == [] then [] else Join(frags, Separator) + "\n\n"
  }

  /** The blocks of the directories, one after the other. */
  function Blocks(dirs: seq<seq<string>>): string {
    if dirs == [] then [] else Blocks(dirs[..|dirs| - 1]) + Block(dirs[|dirs| - 1])
  }

  /** Appending fragments writes them joined by the separator, with one more separator at the end. */
  lemma {:induction false} AppendedJoin(acc: string, frags: seq<string>)
    requires frags != []
    ensures Appended(acc, frags) == acc + Join(frags, Separator) + Separator
  {
    var init := frags[..|frags| - 1];
    var x := frags[|frags| - 1];
    if init == [] {
      assert frags == [x];
    } else {
      AppendedJoin(acc, init);
      assert frags == init + [x];
      JoinSnoc(init, x, Separator);
      var j := Join(init, Separator);
      assert acc + j + Separator + x + Separator == acc + (j + Separator + x) + Separator;
    }
  }

  /** A directory with a selected file adds its block to the text. */
  lemma DirStepNonEmpty(acc: string, frags: seq<string>)
    requires frags != []
    ensures DirStep(acc, frags) == acc + Block(frags)
  {
    AppendedJoin(acc, frags);
    var u := acc + Join(frags, Separator);
    assert Appended(acc, frags) == u + Separator;
    assert (u + Separator)[..|u|] == u;
  }

  /** A directory without a selected file changes the text exactly when it ends with the separator. */
  lemma DirStepEmpty(acc: string)
    ensures DirStep(acc, []) == acc <==> !EndsWith(acc, Separator)
  {
    if EndsWith(acc, Separator) {
      var r := DirStep(acc, []);
      assert |r| == |acc| - 6;
    }
  }

  /** The text ends with a `-` character. */
  predicate DashEnd(t: string) {
    t != [] && t[|t| - 1] == '-'
  }

  /** Text that is empty or closed by a blank line that does not follow a `-`. */
  predicate Settled(t: string) {
    t == [] || t == "\n\n" || (|t| >= 3 && t[|t| - 1] == '\n' && t[|t| - 2] == '\n' && t[|t| - 3] != '-')
  }

  lemma SettledNoSeparator(t: string)
    requires Settled(t)
    ensures !EndsWith(t, Separator)
  {
  }

  /** No fragment ends with a `-` (empty fragments are allowed). */
  predicate NoDashEnd(frags: seq<string>) {
    forall i :: 0 <= i < |frags| ==> !DashEnd(frags[i])
  }

  /** No fragment of any directory ends with a `-`. */
  predicate NoDashEnds(dirs: seq<seq<string>>) {
    forall i, j :: 0 <= i < |dirs| && 0 <= j < |dirs[i]| ==> !DashEnd(dirs[i][j])
  }

  /** Joining fragments that do not end with `-` onto settled text gives text that does not end with `-`. */
  lemma JoinNoDash(acc: string, frags: seq<string>)
    requires Settled(acc) && frags != [] && NoDashEnd(frags)
    ensures !DashEnd(acc + Join(frags, Separator))
  {
    var init := frags[..|frags| - 1];
    var x := frags[|frags| - 1];
    if x != [] {
      assert !DashEnd(x);
      if init == [] {
        assert frags == [x];
      } else {
        assert frags == init + [x];
        JoinSnoc(init, x, Separator);
        AppendAssoc(acc, Join(init, Separator) + Separator, x);
      }
    } else if init == [] {
      assert frags == [x];
      assert acc + Join(frags, Separator) == acc;
    } else {
      assert frags == init + [x];
      JoinSnoc(init, x, Separator);
      var u := acc + (Join(init, Separator) + Separator);
      AppendAssoc(acc, Join(init, Separator), Separator);
      assert acc + Join(frags, Separator) == u;
    }
  }

  /** A block added to settled text leaves it settled. */
  lemma BlockSettles(acc: string, frags: seq<string>)
    requires Settled(acc) && frags != [] && NoDashEnd(frags)
    ensures Settled(acc + Block(frags))
  {
    JoinNoDash(acc, frags);
    var u := acc + Join(frags, Separator);
    AppendAssoc(acc, Join(frags, Separator), "\n\n");
    if u == [] {
      assert u + "\n\n" == "\n\n";
    }
  }

  /**
    When no normalised fragment ends with `-`, the manuscript is the
    blocks of the directories one after the other, and it stays settled.
   */
  lemma {:induction false} AssembledBlocks(dirs: seq<seq<string>>)
    requires NoDashEnds(dirs)
    ensures Assembled(dirs) == Blocks(dirs)
    ensures Settled(Assembled(dirs))
  {
    if dirs != [] {
      var init := dirs[..|dirs| - 1];
      var last := dirs[|dirs| - 1];
      var acc := Assembled(init);
      assert acc == Blocks(init) && Settled(acc) by {
        assert forall i :: 0 <= i < |init| ==> init[i] == dirs[i];
        AssembledBlocks(init);
      }
      assert Assembled(dirs) == acc + Block(last) && Settled(acc + Block(last)) by {
        assert NoDashEnd(last) by {
          assert forall j :: 0 <= j < |last| ==> last[j] == dirs[|dirs| - 1][j];
        }
        DirStepSettled(acc, last);
      }

    }
  }

  /** A directory's step on settled text adds the directory's block and keeps the text settled. */
  lemma DirStepSettled(acc: string, last: seq<string>)
    requires Settled(acc) && NoDashEnd(last)
    ensures DirStep(acc, last) == acc + Block(last)
    ensures Settled(acc + Block(last))
  {
    if last == [] {
      SettledNoSeparator(acc);
      DirStepEmpty(acc);
      assert acc + [] == acc;
    } else {
      DirStepNonEmpty(acc, last);
      BlockSettles(acc, last);
    }
  }

  /** The manuscript never ends with a rule, as long as no normalised fragment ends with `-`. */
  lemma NoTrailingRule(walk: Walk, sel: Selection, table: Table)
    requires NoDashEnds(DirFragments(walk, sel, table))
    ensures !EndsWith(Manuscript(walk, sel, table), Separator)
  {
    AssembledBlocks(DirFragments(walk, sel, table));
    SettledNoSeparator(Manuscript(walk, sel, table));
  }

  /** A further directory without selected files leaves the manuscript as it was, under the same condition. */
  lemma EmptyDirectoryIdle(dirs: seq<seq<string>>)
    requires NoDashEnds(dirs)
    ensures Assembled(dirs + [[]]) == Assembled(dirs)
  {
    var acc := Assembled(dirs);
    assert !EndsWith(acc, Separator) by {
      AssembledBlocks(dirs);
      SettledNoSeparator(acc);
    }
    var all := dirs + [[]];
    assert Assembled(all) == DirStep(acc, []) by {
      AssembledSnoc(all, |dirs|);
      assert all[..|dirs|] == dirs && all[..|dirs| + 1] == all;
    }
    DirStepEmpty(acc);
  }

  /** A file holding only a rule line of four dashes is normalised to itself. */
  lemma DashesNormal()
    ensures Normalize("----", []) == "----"
  {
    StripTrimmed("----", []);
    assert "----" + [] == "----";
    ReplaceMissingChar("----", "----\n", "", '\n');
    ReplaceMissingChar("----", "\n----", "", '\n');
    ReplaceMissingChar("----", "---\n", "", '\n');
    ReplaceMissingChar("----", "\n---", "", '\n');
    ReplaceMissingChar("----", "\n\n\n", "\n\n", '\n');
  }

  /**
    A fragment that ends with `-` defeats both properties above: after a
    directory whose last fragment is `----` the manuscript ends with a rule,
    and a following directory without selected files then takes it away.
   */
  lemma TrailingDashes(x: string)
    ensures Assembled([[x, "----"]]) == x + Separator + "----\n\n"
    ensures EndsWith(Assembled([[x, "----"]]), Separator)
    ensures Assembled([[x, "----"], []]) == x + Separator
  {
    var one := [[x, "----"]];
    var v := x + "\n\n----\n\n----\n\n";
    DashDirectory(x);
    AppendAssoc(x, Separator, "----\n\n");
    Cut(x, "\n\n----\n\n----\n\n", 6);
    var two := [[x, "----"], []];
    assert Assembled(two) == CloseDir(v) by {
      AssembledSnoc(two, 1);
      assert two[..1] == one && two[..2] == two;
      assert Appended(v, []) == v;
    }
    assert v[..|v| - |Separator|] == x + "\n\n----";
    AppendAssoc(x, "\n\n----", "\n\n");
  }

  /** `x` then a rule-only fragment, closed as a directory. */
  lemma DashDirectory(x: string)
    ensures Assembled([[x, "----"]]) == x + "\n\n----\n\n----\n\n"
  {
    var frags := [x, "----"];
    var t := x + "\n\n----\n\n----\n\n----\n\n";
    assert Appended([], frags) == t by {
      AppendedJoin([], frags);
      assert Join(frags, Separator) == x + Separator + "----";
      AppendAssoc(x, Separator, "----");
      AppendAssoc(x, Separator + "----", Separator);
    }
    Cut(x, "\n\n----\n\n----\n\n----\n\n", 16);
    assert CloseDir(t) == x + "\n\n----\n\n----" + "\n\n";
    AppendAssoc(x, "\n\n----\n\n----", "\n\n");
    var one := [frags];
    AssembledSnoc(one, 0);
    assert one[..0] == [] && one[..1] == one;
  }

  /** Cutting `x + k` inside `k`. */
  lemma Cut(x: string, k: string, n: nat)
    requires n <= |k|
    ensures (x + k)[..|x| + n] == x + k[..n]
    ensures (x + k)[|x| + n..] == k[n..]
  {
  }

  /**
    Directories are not separated by a rule: two chapters with one plain
    scene each give the two scenes separated by a blank line only.
   */
  lemma TwoChapters(f: string, g: string)
    requires Plain(f) && Plain(g)
    ensures Assembled([[Normalize(f, [])], [Normalize(g, [])]]) == f + "\n\n" + g + "\n\n"
  {
    NormalizePlain(f);
    NormalizePlain(g);
    var dirs := [[f], [g]];
    assert Assembled(dirs[..1]) == f + "\n\n" by {
      AssembledSnoc(dirs, 0);
      DirStepNonEmpty([], [f]);
      assert dirs[..0] == [] && dirs[0] == [f];
    }
    AssembledSnoc(dirs, 1);
    DirStepNonEmpty(f + "\n\n", [g]);
    assert dirs[..2] == dirs;
  }

  /** An empty tree gives an empty manuscript. */
  lemma EmptyTree(sel: Selection, table: Table)
    ensures Manuscript([], sel, table) == []
  {
    assert DirFragments([], sel, table) == [];
  }
}
