/**
  `directoryCount` and `new_chapter`: the project's directories and files
  as a state that `new_chapter` changes. A new chapter gets the next
  number, a directory named after it, and three template files, each
  written only where no file is yet.
 */
module Scaffolder {
  import opened Strings

  /** Where the chapters live. */
  const ManuscriptDir: string := "./Manuscript"

  const HeaderFile: string := "00 - Chapter Header.md"
  const SceneFile: string := "01 - Setting the stage.md"
  const NotesFile: string := "_Chapter notes.txt"

  const FirstScene: string := "Your book starts here!\n\nYour second paragraph\n"
  const ChapterNotes: string := "Place your chapter notes here!\n"

  /** Every directory at any depth below `path`. */
  function Below(dirs: set<string>, path: string): set<string> {
    set d | d in dirs && StartsWith(d, path + "/")
  }

  /** The name is picked from the number as passed, before a default number is worked out. */
  function ChapterName(number: nat): string {
    if number == 1 then "Your first Chapter" else "New Chapter"
  }

  function ChapterTitle(number: nat, name: string): string {
    "Chapter " + Render(number) + " - " + name
  }

  function ChapterDir(number: nat, name: string): string {
    ManuscriptDir + "/" + ChapterTitle(number, name)
  }

  /** The chapter header fragment: a page break, then the title as a heading. */
  function Heading(title: string): string {
    "\\newpage\n\n# " + title + "\n\n"
  }

  /** A file written only when none is there yet. */
  function Keep(files: map<string, string>, path: string, contents: string): map<string, string> {
    if path in files then files else files[path := contents]
  }

  /** The three template files of a chapter directory, each kept where a file already exists. */
  function Templates(files: map<string, string>, dir: string, title: string): map<string, string> {
    var f := Keep(files, dir + "/" + HeaderFile, Heading(title));
    var g := Keep(f, dir + "/" + SceneFile, FirstScene);
    Keep(g, dir + "/" + NotesFile, ChapterNotes)
  }

  /** The number a chapter gets: the one passed, or one more than the directories under the manuscript. */
  function NextNumber(dirs: set<string>, number: nat): (n: nat)
    ensures n > 0
    ensures number == 0 ==> n > |Below(dirs, ManuscriptDir)|
  {
    if number == 0 then |Below(dirs, ManuscriptDir)| + 1 else number
  }

  /** A project's directories and files. */
  class Project {
    var dirs: set<string>
    var files: map<string, string>

    constructor (dirs0: set<string>, files0: map<string, string>)
      ensures dirs == dirs0 && files == files0
    {
      dirs := dirs0;
      files := files0;
    }

    /** `directoryCount`: the walk adds up the subdirectories of every directory it visits. */
    method DirectoryCount(path: string) returns (n: nat)
      ensures n == |Below(dirs, path)|
    {
      n := 0;
      var rest := dirs;
      ghost var seen: set<string> := {};
      while rest != {}
        invariant rest <= dirs && seen == Below(dirs, path) - rest
        invariant n == |seen|
        decreases |rest|
      {
        var d :| d in rest;
        if StartsWith(d, path + "/") {
          assert d !in seen;
          seen := seen + {d};
          n := n + 1;
        }
        rest := rest - {d};
      }
    }

    /**
      `new_chapter`: make the manuscript directory if needed, pick the
      number and the name, make the chapter directory if needed, and
      write each template file that is missing. Returns the chapter's
      title.
     */
    method NewChapter(number: nat) returns (title: string)
      modifies this
      ensures var n := NextNumber(old(dirs), number);
        var dir := ChapterDir(n, ChapterName(number));
        && title == ChapterTitle(n, ChapterName(number))
        && dirs == old(dirs) + {ManuscriptDir, dir}
        && files == Templates(old(files), dir, title)
    {
      var name := ChapterName(number);
      if ManuscriptDir !in dirs {
        dirs := dirs + {ManuscriptDir};
      }
      assert Below(dirs, ManuscriptDir) == Below(old(dirs), ManuscriptDir) by {
        assert !StartsWith(ManuscriptDir, ManuscriptDir + "/");
      }
      var n := number;
      if n == 0 {
        var count := DirectoryCount(ManuscriptDir);
        n := count + 1;
      }
      title := ChapterTitle(n, name);
      var dir := ManuscriptDir + "/" + title;
      if dir !in dirs {
        dirs := dirs + {dir};
      }
      WriteTemplates(dir, title);
    }

    /** The three `open(..., 'w')` calls, each behind its `isfile` test. */
    method WriteTemplates(dir: string, title: string)
      modifies this
      ensures dirs == old(dirs)
      ensures files == Templates(old(files), dir, title)
    {
      var header := dir + "/" + HeaderFile;
      if header !in files {
        files := files[header := Heading(title)];
      }
      var scene := dir + "/" + SceneFile;
      if scene !in files {
        files := files[scene := FirstScene];
      }
      var notes := dir + "/" + NotesFile;
      if notes !in files {
        files := files[notes := ChapterNotes];
      }
    }
  }

  // ---------------------------------------------------------------- what a new chapter promises

  /**
    No file is ever overwritten: every existing file keeps its contents,
    the three template paths are added, and a template path that was
    free holds its template.
   */
  lemma TemplatesKeepFiles(files: map<string, string>, dir: string, title: string)
    ensures var r := Templates(files, dir, title);
      && (forall p :: p in files ==> p in r && r[p] == files[p])
      && r.Keys == files.Keys + {dir + "/" + HeaderFile, dir + "/" + SceneFile, dir + "/" + NotesFile}
      && (dir + "/" + HeaderFile !in files ==> r[dir + "/" + HeaderFile] == Heading(title))
      && (dir + "/" + SceneFile !in files ==> r[dir + "/" + SceneFile] == FirstScene)
      && (dir + "/" + NotesFile !in files ==> r[dir + "/" + NotesFile] == ChapterNotes)
  {
    var h, s, t := dir + "/" + HeaderFile, dir + "/" + SceneFile, dir + "/" + NotesFile;
    assert h != s && h != t && s != t by {
      assert h[|dir| + 1] == '0' && s[|dir| + 1] == '0' && t[|dir| + 1] == '_';
      assert h[|dir| + 2] == '0' && s[|dir| + 2] == '1';
    }
  }

  /** `str` gives different numbers different texts. */
  lemma RenderInjective(a: nat, b: nat)
    requires Render(a) == Render(b)
    ensures a == b
  {
    ParseRender(a);
    ParseRender(b);
  }

  /** Different numbers give different chapter directories. */
  lemma ChapterDirsDiffer(a: nat, b: nat, name: string)
    requires a != b
    ensures ChapterDir(a, name) != ChapterDir(b, name)
  {
    var p := ManuscriptDir + "/" + "Chapter ";
    var s := " - " + name;
    if ChapterDir(a, name) == ChapterDir(b, name) {
      var x, y := ChapterDir(a, name), ChapterDir(b, name);
      assert x == p + Render(a) + s && y == p + Render(b) + s;
      assert |Render(a)| == |Render(b)|;
      assert x[|p|..|p| + |Render(a)|] == Render(a);
      assert y[|p|..|p| + |Render(b)|] == Render(b);
      RenderInjective(a, b);
      assert false;
    }
  }

  /** A new directory under the manuscript raises the count by one. */
  lemma BelowGrows(dirs: set<string>, dir: string)
    requires StartsWith(dir, ManuscriptDir + "/") && dir !in dirs
    ensures |Below(dirs + {ManuscriptDir, dir}, ManuscriptDir)| == |Below(dirs, ManuscriptDir)| + 1
  {
    assert !StartsWith(ManuscriptDir, ManuscriptDir + "/");
    assert Below(dirs + {ManuscriptDir, dir}, ManuscriptDir) == Below(dirs, ManuscriptDir) + {dir};
  }

  lemma ChapterDirBelow(number: nat, name: string)
    ensures StartsWith(ChapterDir(number, name), ManuscriptDir + "/")
  {
    var d := ChapterDir(number, name);
    assert d[..|ManuscriptDir + "/"|] == ManuscriptDir + "/";
  }

  /**
    Two calls without a number in a row give two chapters numbered one
    after the other, in different directories, when the first call's
    directory is new.
   */
  lemma TwoNewChapters(dirs: set<string>)
    requires ChapterDir(NextNumber(dirs, 0), "New Chapter") !in dirs
    ensures var n := NextNumber(dirs, 0);
      var d := ChapterDir(n, "New Chapter");
      && NextNumber(dirs + {ManuscriptDir, d}, 0) == n + 1
      && ChapterDir(n + 1, "New Chapter") != d
  {
    var n := NextNumber(dirs, 0);
    ChapterDirBelow(n, "New Chapter");
    BelowGrows(dirs, ChapterDir(n, "New Chapter"));
    ChapterDirsDiffer(n + 1, n, "New Chapter");
  }

  /**
    When the directory a call without a number picks already exists, no
    new directory is made (missing template files are still written), and
    the next call without a number picks the same number and the same
    directory again.
   */
  lemma NumberStalls(dirs: set<string>)
    requires ManuscriptDir in dirs && ChapterDir(NextNumber(dirs, 0), "New Chapter") in dirs
    ensures var n := NextNumber(dirs, 0);
      var after := dirs + {ManuscriptDir, ChapterDir(n, "New Chapter")};
      && after == dirs
      && NextNumber(after, 0) == n
  {
  }

  /**
    Only an explicit 1 names the chapter "Your first Chapter": in an empty
    manuscript the default number is also 1, but the chapter is a
    "New Chapter".
   */
  lemma FirstChapterName()
    ensures ChapterTitle(1, ChapterName(1)) == "Chapter 1 - Your first Chapter"
    ensures ChapterTitle(NextNumber({}, 0), ChapterName(0)) == "Chapter 1 - New Chapter"
  {
    assert Below({}, ManuscriptDir) == {};
  }
}
