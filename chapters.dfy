/**
  `pre_process_chapters`: the same walk as `pre_process`, but every
  directory's `.md` files go into a dictionary keyed by the directory's
  base name. The trailing rule is removed after every file, so each file
  contributes its normalised text followed by a blank line.
 */
module Chapters {
  import opened Wrappers
  import opened Strings
  import opened Dict
  import opened Ordering
  import opened Normalizer
  import opened Assembler

  /** The chapter dictionary: base name to text, in insertion order. */
  type Book = seq<(string, string)>

  /** The text stored under `key`, or nothing. */
  function Text(book: Book, key: string): string {
    match Get(book, key)
    case None => []
    case Some(v) => v
  }

  /** One file added to a chapter: its fragment and a blank line after the chapter's text so far. */
  function AddFragment(book: Book, key: string, frag: string): Book {
    Put(book, key, Text(book, key) + frag + "\n\n")
  }

  /** The fragments of one directory added to a chapter, one after the other. */
  function AddFragments(book: Book, key: string, frags: seq<string>): Book {
    if frags == [] then book
    else AddFragment(AddFragments(book, key, frags[..|frags| - 1]), key, frags[|frags| - 1])
  }

  /** Each visited directory's chapter key and fragments, in walk order. */
  function ChapterDirs(walk: Walk, table: Table): (r: seq<(string, seq<string>)>)
    ensures |r| == |walk|
  {
    var dirs := SortByKey(walk);
    var frags := DirFragments(walk, MarkdownOnly, table);
    seq(|dirs|, i requires 0 <= i < |dirs| => (Basename(dirs[i].0), frags[i]))
  }

  /** The dictionary after each directory's fragments in turn. */
  function Chapters(dirs: seq<(string, seq<string>)>): Book {
    if dirs == [] then []
    else
      var last := dirs[|dirs| - 1];
      AddFragments(Chapters(dirs[..|dirs| - 1]), last.0, last.1)
  }

  /** The dictionary `pre_process_chapters` returns for a walk. */
  function ChapterBook(walk: Walk, table: Table): Book {
    Chapters(ChapterDirs(walk, table))
  }

  /**
    The update the loop body makes for one `.md` file: create the entry
    if it is missing, append the fragment and a rule, then turn that
    trailing rule into a blank line.
   */
  method StoreFragment(book: Book, key: string, frag: string) returns (r: Book)
    ensures r == AddFragment(book, key, frag)
  {
    ghost var text := Text(book, key) + frag;
    r := book;
    if Get(r, key).None? {
      r := Put(r, key, "");
      PutGet(book, key, "");
      PutPut(book, key, "", text + "\n\n");
    }
    var grown := Get(r, key).value + frag + Separator;
    ghost var before := r;
    r := Put(r, key, grown);
    PutGet(before, key, grown);
    var v := Get(r, key).value;
    if EndsWith(v, Separator) {
      assert v[..|v| - |Separator|] == text;
      r := Put(r, key, v[..|v| - |Separator|] + "\n\n");
      PutPut(before, key, grown, text + "\n\n");
    }
  }

  /** `pre_process_chapters`, loop by loop. */
  method PreProcessChapters(walk: Walk, table: Table) returns (book: Book)
    ensures book == ChapterBook(walk, table)
  {
    var dirs := SortByKey(walk);
    ghost var cdirs := ChapterDirs(walk, table);
    book := [];
    var i := 0;
    while i < |dirs|
      invariant 0 <= i <= |dirs|
      invariant book == Chapters(cdirs[..i])
    {
      var key := Basename(dirs[i].0);
      var files := SortByKey(dirs[i].1);
      ghost var start := book;
      var j := 0;
      while j < |files|
        invariant 0 <= j <= |files|
        invariant book == AddFragments(start, key, Fragments(files[..j], MarkdownOnly, table))
      {
        FragmentsSnoc(files, j, MarkdownOnly, table);
        if EndsWith(files[j].0, ".md") {
          var contents := NormalizeMarkdown(files[j].1, table);
          AddFragmentsSnoc(start, key, Fragments(files[..j], MarkdownOnly, table), contents);
          book := StoreFragment(book, key, contents);
        }
        j := j + 1;
      }
      assert files[..|files|] == files;
      ChaptersSnoc(cdirs, i);
      i := i + 1;
    }
    assert cdirs[..|dirs|] == cdirs;
  }

  lemma AddFragmentsSnoc(book: Book, key: string, frags: seq<string>, x: string)
    ensures AddFragments(book, key, frags + [x]) == AddFragment(AddFragments(book, key, frags), key, x)
  {
    assert (frags + [x])[..|frags|] == frags;
  }

  lemma ChaptersSnoc(dirs: seq<(string, seq<string>)>, i: nat)
    requires i < |dirs|
    ensures Chapters(dirs[..i + 1]) == AddFragments(Chapters(dirs[..i]), dirs[i].0, dirs[i].1)
  {
    assert dirs[..i + 1][..i] == dirs[..i];
  }

  // ---------------------------------------------------------------- what a chapter holds

  /** Fragments each followed by a blank line, concatenated. */
  function Paragraphs(frags: seq<string>): string {
    if frags == [] then [] else Paragraphs(frags[..|frags| - 1]) + frags[|frags| - 1] + "\n\n"
  }

  lemma {:induction false} ParagraphsAppend(a: seq<string>, b: seq<string>)
    ensures Paragraphs(a + b) == Paragraphs(a) + Paragraphs(b)
  {
    if b != [] {
      var init := b[..|b| - 1];
      var x := b[|b| - 1];
      ParagraphsAppend(a, init);
      assert (a + b)[..|a + b| - 1] == a + init;
    } else {
      assert a + b == a;
    }
  }

  lemma TextAdd(book: Book, key: string, x: string)
    ensures Text(AddFragment(book, key, x), key) == Text(book, key) + x + "\n\n"
  {
    PutGet(book, key, Text(book, key) + x + "\n\n");
  }

  /** Adding a directory's fragments under `key` appends their paragraphs to that chapter. */
  lemma {:induction false} AddFragmentsText(book: Book, key: string, frags: seq<string>)
    ensures Text(AddFragments(book, key, frags), key) == Text(book, key) + Paragraphs(frags)
  {
    if frags == [] {
      assert Text(book, key) + [] == Text(book, key);
    } else {
      var init := frags[..|frags| - 1];
      var x := frags[|frags| - 1];
      var mid := AddFragments(book, key, init);
      var t, p, y := Text(book, key), Paragraphs(init), x + "\n\n";
      assert Text(AddFragments(book, key, frags), key) == (t + p) + y by {
        AddFragmentsText(book, key, init);
        TextAdd(mid, key, x);
        AppendAssoc(Text(mid, key), x, "\n\n");
      }
      assert Paragraphs(frags) == p + y by {
        AppendAssoc(p, x, "\n\n");
      }
      AppendAssoc(t, p, y);
    }
  }

  /**
    Adding fragments under `key` creates that chapter if there is a
    fragment, keeps the keys distinct, and leaves every other chapter as
    it was.
   */
  lemma {:induction false} AddFragmentsOthers(book: Book, key: string, frags: seq<string>)
    ensures forall k :: k != key ==> Get(AddFragments(book, key, frags), k) == Get(book, k)
    ensures KeySet(AddFragments(book, key, frags)) == KeySet(book) + (if frags == [] then {} else {key})
    ensures DistinctKeys(book) ==> DistinctKeys(AddFragments(book, key, frags))
  {
    if frags != [] {
      var mid := AddFragments(book, key, frags[..|frags| - 1]);
      AddFragmentsOthers(book, key, frags[..|frags| - 1]);
      var w := Text(mid, key) + frags[|frags| - 1] + "\n\n";
      forall k | k != key ensures Get(Put(mid, key, w), k) == Get(book, k) {
        PutOther(mid, key, w, k);
      }
      PutKeys(mid, key, w);
    }
  }

  /** The fragments of every directory whose base name is `key`, in walk order. */
  function FragmentsOf(dirs: seq<(string, seq<string>)>, key: string): seq<string> {
    if dirs == [] then []
    else
      var last := dirs[|dirs| - 1];
      FragmentsOf(dirs[..|dirs| - 1], key) + (if last.0 == key then last.1 else [])
  }

  /** The base names of the directories that hold at least one selected file. */
  function ChapterKeys(dirs: seq<(string, seq<string>)>): set<string> {
    set i | 0 <= i < |dirs| && dirs[i].1 != [] :: dirs[i].0
  }

  /**
    A chapter exists exactly for each base name with a selected file,
    no chapter appears twice, and a chapter's text is the paragraphs of
    every fragment filed under its name: directories with the same base
    name share one chapter.
   */
  lemma {:induction false} ChaptersContents(dirs: seq<(string, seq<string>)>)
    ensures KeySet(Chapters(dirs)) == ChapterKeys(dirs)
    ensures DistinctKeys(Chapters(dirs))
    ensures forall k :: Text(Chapters(dirs), k) == Paragraphs(FragmentsOf(dirs, k))
  {
    if dirs != [] {
      var init := dirs[..|dirs| - 1];
      var last := dirs[|dirs| - 1];
      ChaptersContents(init);
      AddFragmentsText(Chapters(init), last.0, last.1);
      AddFragmentsOthers(Chapters(init), last.0, last.1);
      assert ChapterKeys(dirs) == ChapterKeys(init) + (if last.1 == [] then {} else {last.0}) by {
        ChapterKeysSnoc(dirs);
      }
      forall k ensures Text(Chapters(dirs), k) == Paragraphs(FragmentsOf(dirs, k)) {
        ParagraphsAppend(FragmentsOf(init, k), if last.0 == k then last.1 else []);
        if last.0 != k {
          assert Paragraphs([]) == [];
        }
      }
    }
  }

  lemma ChapterKeysSnoc(dirs: seq<(string, seq<string>)>)
    requires dirs != []
    ensures var last := dirs[|dirs| - 1];
      ChapterKeys(dirs) == ChapterKeys(dirs[..|dirs| - 1]) + (if last.1 == [] then {} else {last.0})
  {
    var init := dirs[..|dirs| - 1];
    forall k | k in ChapterKeys(dirs)
      ensures k in ChapterKeys(init) + (if dirs[|dirs| - 1].1 == [] then {} else {dirs[|dirs| - 1].0})
    {
      var i :| 0 <= i < |dirs| && dirs[i].1 != [] && dirs[i].0 == k;
      if i < |init| { assert init[i] == dirs[i]; }
    }
    forall k | k in ChapterKeys(init) ensures k in ChapterKeys(dirs) {
      var i :| 0 <= i < |init| && init[i].1 != [] && init[i].0 == k;
      assert dirs[i] == init[i];
    }
  }

  /** Chapter text has no rules between files: each is followed by a blank line only. */
  lemma {:induction false} ParagraphsJoin(frags: seq<string>)
    requires frags != []
    ensures Paragraphs(frags) == Join(frags, "\n\n") + "\n\n"
  {
    var init := frags[..|frags| - 1];
    var x := frags[|frags| - 1];
    if init == [] {
      assert frags == [x];
    } else {
      ParagraphsJoin(init);
      assert frags == init + [x];
      JoinSnoc(init, x, "\n\n");
    }
  }
}
