/**
  `create_book_metadata`: the front-matter block handed to pandoc,
  built from the project's configuration, one `key: value` line per
  setting between the `---` and `...` delimiters.
 */
module Metadata {
  import opened Wrappers
  import opened Strings

  /**
    The parsed configuration file: setting name to text, before the
    program fills in the font size it defaults.
   */
  type Config = map<string, string>

  /** Looking up a setting that the configuration lacks. */
  datatype Failure = MissingKey(key: string)

  /** The settings the block reads unconditionally, in the order it reads them. */
  const Required: seq<string> :=
    ["bookName", "authorName", "copyRight", "languageCode", "publisherName"]

  /** The font size the program sets when the configuration names none. */
  const DefaultFontSize: string := "12pt"

  /** The file the block is written to. */
  const InfoFile: string := "./00-ebook-info.txt"

  /** The first required setting the configuration lacks, if any. */
  function FirstMissing(config: Config, keys: seq<string>): (r: Option<string>)
    ensures r.None? <==> forall k :: k in keys ==> k in config
    ensures r.Some? ==> r.value in keys && r.value !in config
  {
    if keys == [] then None
    else if keys[0] !in config then Some(keys[0])
    else FirstMissing(config, keys[1..])
  }

  /** Every setting the block reads unconditionally is there. */
  predicate HasRequired(config: Config) {
    && "bookName" in config && "authorName" in config && "copyRight" in config
    && "languageCode" in config && "publisherName" in config
  }

  /** The configured font size, or the default the program fills in before any command runs. */
  function FontSize(config: Config): string {
    if "pdfFontSize" in config then config["pdfFontSize"] else DefaultFontSize
  }

  predicate HasCover(config: Config) {
    "coverImage" in config && config["coverImage"] != ""
  }

  /** The block's opening delimiter and its eight fixed lines, as the source appends them. */
  function Settings(config: Config): string
    requires HasRequired(config)
  {
    var t := "---\n";
    var t := t + "title: " + config["bookName"] + "\n";
    var t := t + "author: " + config["authorName"] + "\n";
    var t := t + "rights:  " + config["copyRight"] + "\n";
    var t := t + "language: " + config["languageCode"] + "\n";
    var t := t + "geometry: margin=3cm\n";
    var t := t + "fontsize: " + FontSize(config) + "\n";
    t + "publisher: " + config["publisherName"] + "\n"
  }

  /** The whole block: the fixed lines, the cover line when there is a cover, the closing delimiter. */
  function Block(config: Config): string
    requires HasRequired(config)
  {
    var t := Settings(config);
    var t := if HasCover(config) then t + "cover-image: " + config["coverImage"] + "\n" else t;
    t + "...\n"
  }

  /**
    `create_book_metadata`: nothing is written unless the block is to be
    recreated; a missing setting fails the lookup of the first one the
    block reads; otherwise the contents of the info file.
   */
  function CreateBookMetadata(config: Config, recreate: bool): (r: Result<Option<string>, Failure>)
    ensures r == Ok(None) <==> !recreate
    ensures r.Err? ==> recreate && r.error.key in Required && r.error.key !in config
    ensures r.Ok? && r.value.Some? ==>
      HasRequired(config) && StartsWith(r.value.value, "---\n") && EndsWith(r.value.value, "...\n")
  {
    if !recreate then Ok(None)
    else match FirstMissing(config, Required)
      case Some(k) => Err(MissingKey(k))
      case None =>
        assert HasRequired(config) by {
          assert Required[0] in config && Required[1] in config && Required[2] in config;
          assert Required[3] in config && Required[4] in config;
        }
        BlockDelimited(config);
        Ok(Some(Block(config)))
  }

  /** The block opens with the `---` line and closes with the `...` line. */
  lemma BlockDelimited(config: Config)
    requires HasRequired(config)
    ensures StartsWith(Block(config), "---\n") && EndsWith(Block(config), "...\n")
  {
    BlockLines(config);
    var ls := Lines(config);
    assert Unlines(ls) == "---" + "\n" + Unlines(ls[1..]);
    assert Unlines(ls)[..4] == "---\n";
    var t := if HasCover(config) then Settings(config) + "cover-image: " + config["coverImage"] + "\n"
             else Settings(config);
    assert Block(config) == t + "...\n";
    assert (t + "...\n")[|t|..] == "...\n";
  }

  // ---------------------------------------------------------------- reading the block back

  /** Each line followed by a newline. */
  function Unlines(lines: seq<string>): string {
    if lines == [] then "" else lines[0] + "\n" + Unlines(lines[1..])
  }

  /** The value of the first line that starts with `prefix`. */
  function Field(lines: seq<string>, prefix: string): Option<string> {
    if lines == [] then None
    else if StartsWith(lines[0], prefix) then Some(lines[0][|prefix|..])
    else Field(lines[1..], prefix)
  }

  /** The lines of the block: the delimiters, the settings and the optional cover. */
  function Lines(config: Config): seq<string>
    requires HasRequired(config)
  {
    ["---",
     "title: " + config["bookName"],
     "author: " + config["authorName"],
     "rights:  " + config["copyRight"],
     "language: " + config["languageCode"],
     "geometry: margin=3cm",
     "fontsize: " + FontSize(config),
     "publisher: " + config["publisherName"]]
    + (if HasCover(config) then ["cover-image: " + config["coverImage"]] else [])
    + ["..."]
  }

  lemma {:induction false} UnlinesSnoc(lines: seq<string>, x: string)
    ensures Unlines(lines + [x]) == Unlines(lines) + x + "\n"
  {
    if lines == [] {
      assert Unlines([x]) == x + "\n" + Unlines([]);
    } else {
      assert (lines + [x])[0] == lines[0];
      assert (lines + [x])[1..] == lines[1..] + [x];
      UnlinesSnoc(lines[1..], x);
    }
  }

  /** Splitting newline-free lines, written one per line, at the newlines gives them back. */
  lemma {:induction false} SplitUnlines(lines: seq<string>)
    requires forall i :: 0 <= i < |lines| ==> '\n' !in lines[i]
    ensures SplitOn(Unlines(lines), '\n') == lines + [""]
  {
    if lines == [] {
      SplitOnPlain("", '\n');
    } else {
      SplitUnlines(lines[1..]);
      assert Unlines(lines) == lines[0] + ['\n'] + Unlines(lines[1..]);
      SplitOnPrefix(lines[0], Unlines(lines[1..]), '\n');
      assert lines == [lines[0]] + lines[1..];
    }
  }

  /** One more line of the block: its text so far, the next line's key and value, and a newline. */
  lemma LineStep(ls: seq<string>, k: nat, t: string, key: string, value: string)
    requires k < |ls| && t == Unlines(ls[..k]) && ls[k] == key + value
    ensures t + key + value + "\n" == Unlines(ls[..k + 1])
  {
    assert ls[..k + 1] == ls[..k] + [ls[k]];
    UnlinesSnoc(ls[..k], ls[k]);
    assert t + key + value == t + (key + value);
  }

  /** The delimiter and the eight fixed lines lead `ls`, one by one. */
  predicate Fixed(config: Config, ls: seq<string>)
    requires HasRequired(config)
  {
    && |ls| >= 9
    && ls[0] == "---"
    && ls[1] == "title: " + config["bookName"]
    && ls[2] == "author: " + config["authorName"]
    && ls[3] == "rights:  " + config["copyRight"]
    && ls[4] == "language: " + config["languageCode"]
    && ls[5] == "geometry: margin=3cm"
    && ls[6] == "fontsize: " + FontSize(config)
    && ls[7] == "publisher: " + config["publisherName"]
  }

  /** The lines of the block, one by one. */
  predicate Shaped(config: Config, ls: seq<string>)
    requires HasRequired(config)
  {
    && Fixed(config, ls)
    && |ls| == (if HasCover(config) then 10 else 9)
    && (HasCover(config) ==> ls[8] == "cover-image: " + config["coverImage"])
    && ls[|ls| - 1] == "..."
  }

  lemma LinesShaped(config: Config)
    requires HasRequired(config)
    ensures Shaped(config, Lines(config))
  {
  }

  /** The block is its lines, each ended by a newline. */
  lemma BlockLines(config: Config)
    requires HasRequired(config)
    ensures Block(config) == Unlines(Lines(config))
  {
    LinesShaped(config);
    BlockUnlines(config, Lines(config));
  }

  lemma SettingsUnlines(config: Config, ls: seq<string>)
    requires HasRequired(config) && Shaped(config, ls)
    ensures Settings(config) == Unlines(ls[..8])
  {
    var t0 := "---\n";
    assert t0 == Unlines(ls[..1]) by { UnlinesSnoc([], ls[0]); assert ls[..1] == [] + [ls[0]]; }
    LineStep(ls, 1, t0, "title: ", config["bookName"]);
    var t1 := t0 + "title: " + config["bookName"] + "\n";
    LineStep(ls, 2, t1, "author: ", config["authorName"]);
    var t2 := t1 + "author: " + config["authorName"] + "\n";
    LineStep(ls, 3, t2, "rights:  ", config["copyRight"]);
    var t3 := t2 + "rights:  " + config["copyRight"] + "\n";
    LineStep(ls, 4, t3, "language: ", config["languageCode"]);
    var t4 := t3 + "language: " + config["languageCode"] + "\n";
    LineStep(ls, 5, t4, "geometry: margin=3cm", "");
    var t5 := t4 + "geometry: margin=3cm\n";
    LineStep(ls, 6, t5, "fontsize: ", FontSize(config));
    var t6 := t5 + "fontsize: " + FontSize(config) + "\n";
    LineStep(ls, 7, t6, "publisher: ", config["publisherName"]);
  }

  lemma BlockUnlines(config: Config, ls: seq<string>)
    requires HasRequired(config) && Shaped(config, ls)
    ensures Block(config) == Unlines(ls)
  {
    SettingsUnlines(config, ls);
    if HasCover(config) {
      CoverUnlines(Settings(config), ls, config["coverImage"]);
    } else {
      CloseUnlines(Settings(config), ls);
    }
  }

  /** The closing delimiter after the fixed lines. */
  lemma CloseUnlines(t: string, ls: seq<string>)
    requires |ls| == 9 && t == Unlines(ls[..8]) && ls[8] == "..."
    ensures t + "...\n" == Unlines(ls)
  {
    LineStep(ls, 8, t, "...", "");
    assert ls[..9] == ls;
  }

  /** The cover line and the closing delimiter after the fixed lines. */
  lemma CoverUnlines(t: string, ls: seq<string>, cover: string)
    requires |ls| == 10 && t == Unlines(ls[..8]) && ls[8] == "cover-image: " + cover && ls[9] == "..."
    ensures t + "cover-image: " + cover + "\n" + "...\n" == Unlines(ls)
  {
    LineStep(ls, 8, t, "cover-image: ", cover);
    var t8 := t + "cover-image: " + cover + "\n";
    LineStep(ls, 9, t8, "...", "");
    assert ls[..10] == ls;
  }

  predicate NoNewlines(config: Config) {
    forall k :: k in config ==> '\n' !in config[k]
  }

  /** A line made of a newline-free key and value has no newline. */
  lemma NoNewlineIn(key: string, value: string)
    requires '\n' !in key && '\n' !in value
    ensures '\n' !in key + value
  {
  }

  /** With no newline in any setting, no line of the block holds one. */
  lemma LinesNoNewlines(config: Config, ls: seq<string>)
    requires HasRequired(config) && NoNewlines(config) && Shaped(config, ls)
    ensures forall i :: 0 <= i < |ls| ==> '\n' !in ls[i]
  {
    NoNewlineIn("title: ", config["bookName"]);
    NoNewlineIn("author: ", config["authorName"]);
    NoNewlineIn("rights:  ", config["copyRight"]);
    NoNewlineIn("language: ", config["languageCode"]);
    NoNewlineIn("fontsize: ", FontSize(config));
    NoNewlineIn("publisher: ", config["publisherName"]);
    if HasCover(config) {
      NoNewlineIn("cover-image: ", config["coverImage"]);
    }
  }

  /**
    With no newline in any setting, splitting the block at its newlines
    gives its lines back, with the empty text after the last newline.
   */
  lemma BlockSplits(config: Config)
    requires HasRequired(config) && NoNewlines(config)
    ensures SplitOn(Block(config), '\n') == Lines(config) + [""]
  {
    BlockLines(config);
    LinesShaped(config);
    LinesNoNewlines(config, Lines(config));
    SplitUnlines(Lines(config));
  }

  /** A line that is `key` followed by `value`, and no earlier line that starts like `key`. */
  lemma FoundAt(lines: seq<string>, i: nat, key: string, value: string)
    requires i < |lines| && |key| > 0 && lines[i] == key + value
    requires forall j :: 0 <= j < i ==> |lines[j]| == 0 || lines[j][0] != key[0]
    ensures Field(lines, key) == Some(value)
  {
    assert StartsWith(lines[i], key) by { assert lines[i][..|key|] == key; }
    FieldAt(lines, key, i);
    assert lines[i][|key|..] == value;
  }

  /** A reader of lines that start as the block does finds each setting under its key. */
  lemma FixedFields(config: Config, lines: seq<string>)
    requires HasRequired(config) && Fixed(config, lines)
    ensures Field(lines, "title: ") == Some(config["bookName"])
    ensures Field(lines, "author: ") == Some(config["authorName"])
    ensures Field(lines, "rights: ") == Some(" " + config["copyRight"])
    ensures Field(lines, "language: ") == Some(config["languageCode"])
    ensures Field(lines, "geometry: ") == Some("margin=3cm")
    ensures Field(lines, "fontsize: ") == Some(FontSize(config))
    ensures Field(lines, "publisher: ") == Some(config["publisherName"])
  {
    assert Field(lines, "title: ") == Some(config["bookName"]) by {
      FoundAt(lines, 1, "title: ", config["bookName"]);
    }
    assert Field(lines, "author: ") == Some(config["authorName"]) by {
      FoundAt(lines, 2, "author: ", config["authorName"]);
    }
    assert Field(lines, "rights: ") == Some(" " + config["copyRight"]) by {
      assert lines[3] == "rights: " + (" " + config["copyRight"]);
      FoundAt(lines, 3, "rights: ", " " + config["copyRight"]);
    }
    assert Field(lines, "language: ") == Some(config["languageCode"]) by {
      FoundAt(lines, 4, "language: ", config["languageCode"]);
    }
    assert Field(lines, "geometry: ") == Some("margin=3cm") by {
      FoundAt(lines, 5, "geometry: ", "margin=3cm");
    }
    assert Field(lines, "fontsize: ") == Some(FontSize(config)) by {
      FoundAt(lines, 6, "fontsize: ", FontSize(config));
    }
    FoundAt(lines, 7, "publisher: ", config["publisherName"]);
  }

  /** The block's lines and the empty text after its last newline. */
  lemma SplitShaped(config: Config)
    requires HasRequired(config) && NoNewlines(config)
    ensures var lines := SplitOn(Block(config), '\n');
      && Fixed(config, lines)
      && |lines| == (if HasCover(config) then 11 else 10)
      && (HasCover(config) ==> lines[8] == "cover-image: " + config["coverImage"])
      && lines[|lines| - 2] == "..." && lines[|lines| - 1] == ""
  {
    BlockSplits(config);
    LinesShaped(config);
  }

  /**
    With no newline in any setting, a naive reader that takes each line's
    text after `key: ` finds each setting under its key, the fixed
    margin, and the default font size when none is configured. The rights line has two spaces after its colon, so this reader
    gets the rights back with a leading space; a YAML reader drops it.
   */
  lemma MetadataFields(config: Config)
    requires HasRequired(config) && NoNewlines(config)
    ensures var lines := SplitOn(Block(config), '\n');
      && Field(lines, "title: ") == Some(config["bookName"])
      && Field(lines, "author: ") == Some(config["authorName"])
      && Field(lines, "rights: ") == Some(" " + config["copyRight"])
      && Field(lines, "language: ") == Some(config["languageCode"])
      && Field(lines, "geometry: ") == Some("margin=3cm")
      && Field(lines, "fontsize: ") ==
           Some(if "pdfFontSize" in config then config["pdfFontSize"] else DefaultFontSize)
      && Field(lines, "publisher: ") == Some(config["publisherName"])
  {
    SplitShaped(config);
    FixedFields(config, SplitOn(Block(config), '\n'));
  }

  /** The cover line is there exactly when a non-empty cover image is configured. */
  lemma MetadataCover(config: Config)
    requires HasRequired(config) && NoNewlines(config)
    ensures var lines := SplitOn(Block(config), '\n');
      Field(lines, "cover-image: ") == (if HasCover(config) then Some(config["coverImage"]) else None)
  {
    SplitShaped(config);
    var lines := SplitOn(Block(config), '\n');
    if HasCover(config) {
      FoundAt(lines, 8, "cover-image: ", config["coverImage"]);
    } else {
      FieldAbsent(lines, "cover-image: ");
    }
  }

  /** A reader finds the first line with the prefix. */
  lemma {:induction false} FieldAt(lines: seq<string>, prefix: string, i: nat)
    requires i < |lines| && |prefix| > 0 && StartsWith(lines[i], prefix)
    requires forall j :: 0 <= j < i ==> |lines[j]| == 0 || lines[j][0] != prefix[0]
    ensures Field(lines, prefix) == Some(lines[i][|prefix|..])
  {
    if i > 0 {
      FieldAt(lines[1..], prefix, i - 1);
    }
  }

  lemma {:induction false} FieldAbsent(lines: seq<string>, prefix: string)
    requires |prefix| > 0
    requires forall j :: 0 <= j < |lines| ==> |lines[j]| == 0 || lines[j][0] != prefix[0]
    ensures Field(lines, prefix) == None
  {
    if lines != [] {
      FieldAbsent(lines[1..], prefix);
    }
  }

  /** A block is made only when asked for, and exactly when every required setting is there. */
  lemma MetadataFails(config: Config, recreate: bool)
    ensures CreateBookMetadata(config, recreate).Err? <==>
      recreate && exists k :: k in Required && k !in config
    ensures !recreate ==> CreateBookMetadata(config, recreate) == Ok(None)
    ensures recreate ==> forall i ::
      (0 <= i < |Required| && Required[i] !in config && forall h :: 0 <= h < i ==> Required[h] in config) ==>
        CreateBookMetadata(config, recreate) == Err(MissingKey(Required[i]))
  {
    if recreate {
      FirstMissingFirst(config, Required);
    }
  }

  /** The reported setting is the first one missing. */
  lemma {:induction false} FirstMissingFirst(config: Config, keys: seq<string>)
    ensures forall i ::
      (0 <= i < |keys| && keys[i] !in config && forall h :: 0 <= h < i ==> keys[h] in config) ==>
        FirstMissing(config, keys) == Some(keys[i])
  {
    if keys != [] && keys[0] in config {
      FirstMissingFirst(config, keys[1..]);
      forall i | 0 < i < |keys| && keys[i] !in config && (forall h :: 0 <= h < i ==> keys[h] in config)
        ensures FirstMissing(config, keys) == Some(keys[i])
      {
        assert keys[1..][i - 1] == keys[i];
        forall h | 0 <= h < i - 1 ensures keys[1..][h] in config {
          assert keys[1..][h] == keys[h + 1];
        }
      }
    }
  }
}
