/**
  The standalone `md-preprocess` script: the same assembly as
  `pre_process`, but it takes every file whatever its extension, applies
  no replacement table, and writes the normalisation steps out inline.
 */
module MdPreprocess {
  import opened Strings
  import opened Ordering
  import opened Normalizer
  import opened Assembler

  /** The script's steps for one file: strip, the four rule deletions, one collapse pass. */
  method CleanFile(contents: string) returns (r: string)
    ensures r == Normalize(contents, [])
  {
    r := Strip(contents);
    r := ReplaceAll(r, "----\n", "");
    r := ReplaceAll(r, "\n----", "");
    r := ReplaceAll(r, "---\n", "");
    r := ReplaceAll(r, "\n---", "");
    r := ReplaceAll(r, "\n\n\n", "\n\n");
  }

  /** The body of the outer loop: one directory's files in order, then the close of the directory. */
  method AddDirectory(text: string, files: seq<File>) returns (r: string)
    ensures r == DirStep(text, Fragments(files, EveryFile, []))
  {
    r := text;
    var j := 0;
    while j < |files|
      invariant 0 <= j <= |files|
      invariant r == Appended(text, Fragments(files[..j], EveryFile, []))
    {
      FragmentsSnoc(files, j, EveryFile, []);
      var contents := CleanFile(files[j].1);
      AppendedSnoc(text, Fragments(files[..j], EveryFile, []), contents);
      r := r + contents + Separator;
      j := j + 1;
    }
    assert files[..|files|] == files;
    if EndsWith(r, Separator) {
      r := r[..|r| - |Separator|] + "\n\n";
    }
  }

  /** The script's nested loop over the walk. */
  method Run(walk: Walk) returns (text: string)
    ensures text == Manuscript(walk, EveryFile, [])
  {
    var dirs := SortByKey(walk);
    ghost var frags := DirFragments(walk, EveryFile, []);
    text := "";
    var i := 0;
    while i < |dirs|
      invariant 0 <= i <= |dirs|
      invariant text == Assembled(frags[..i])
    {
      var files := SortByKey(dirs[i].1);
      AssembledSnoc(frags, i);
      text := AddDirectory(text, files);
      i := i + 1;
    }
    assert frags[..|dirs|] == frags;
  }

  /**
    Every file of a directory is taken, whatever its name, in sorted
    name order: the directory's fragments are its sorted files'
    normalised contents, one for one.
   */
  lemma EveryFileTaken(walk: Walk, i: nat)
    requires i < |walk|
    ensures var files := SortByKey(SortByKey(walk)[i].1);
      var frags := DirFragments(walk, EveryFile, [])[i];
      |frags| == |files| &&
      forall j :: 0 <= j < |files| ==> frags[j] == Normalize(files[j].1, [])
  {
    var files := SortByKey(SortByKey(walk)[i].1);
    FragmentsEveryLength(files, []);
    forall j | 0 <= j < |files| ensures DirFragments(walk, EveryFile, [])[i][j] == Normalize(files[j].1, []) {
      FragmentsEveryAt(files, [], j);
    }
  }
}
