/**
  The progress ledger kept by `save_progress`: a table from date text to
  word count text, read from tab-separated lines, updated with today's
  count, and written back in ascending date order. Today's progress is
  today's count less the count of the entry just before it in date
  order; the daily series gives that difference for every entry.
 */
module Ledger {
  import opened Wrappers
  import opened Strings
  import opened Dict
  import opened Ordering
  import Assembler
  import Normalizer
  import WordCounter

  /** The ledger dictionary: date text to count text, in insertion order. */
  type Table = seq<(string, string)>

  /** Why an update is abandoned before anything is written. */
  datatype Failure =
    | Unpack(line: string)                 // the line does not split into exactly two tab-separated fields
    | NotANumber(date: string, count: string)  // `int()` refuses the count stored for a date

  /** The fields of a ledger line: surrounding whitespace removed, then split at every tab. */
  function Fields(line: string): seq<string> {
    SplitOn(Strip(line), '\t')
  }

  /** The table read from the ledger's lines; a later line for a date overwrites an earlier one. */
  function Loaded(lines: seq<string>): (r: Result<Table, Failure>)
    ensures r.Ok? ==> DistinctKeys(r.value)
    ensures r.Err? ==> r.error.Unpack? && r.error.line in lines && |Fields(r.error.line)| != 2
  {
    if lines == [] then Ok([])
    else
      var init := lines[..|lines| - 1];
      var line := lines[|lines| - 1];
      assert line in lines && forall l :: l in init ==> l in lines;
      match Loaded(init)
      case Err(e) => Err(e)
      case Ok(t) =>
        var f := Fields(line);
        if |f| == 2 then PutKeys(t, f[0], f[1]); Ok(Put(t, f[0], f[1])) else Err(Unpack(line))
  }

  /** Once a prefix of the lines fails, the whole read fails the same way. */
  lemma {:induction false} LoadedErrStays(lines: seq<string>, i: nat)
    requires i <= |lines| && Loaded(lines[..i]).Err?
    ensures Loaded(lines) == Loaded(lines[..i])
    decreases |lines| - i
  {
    if i < |lines| {
      assert lines[..i + 1][..i] == lines[..i];
      LoadedErrStays(lines, i + 1);
    } else {
      assert lines[..i] == lines;
    }
  }

  /** The reading loop of `save_progress`: unpack each line into a date and a count. */
  method ReadLedger(lines: seq<string>) returns (r: Result<Table, Failure>)
    ensures r == Loaded(lines)
  {
    var t: Table := [];
    var i := 0;
    while i < |lines|
      invariant 0 <= i <= |lines|
      invariant Loaded(lines[..i]) == Ok(t)
    {
      assert lines[..i + 1][..i] == lines[..i];
      var f := Fields(lines[i]);
      if |f| != 2 {
        LoadedErrStays(lines, i + 1);
        return Err(Unpack(lines[i]));
      }
      t := Put(t, f[0], f[1]);
      i := i + 1;
    }
    assert lines[..i] == lines;
    r := Ok(t);
  }

  /** Every line unpacks: the read succeeds. */
  lemma {:induction false} LoadedOk(lines: seq<string>)
    requires forall i :: 0 <= i < |lines| ==> |Fields(lines[i])| == 2
    ensures Loaded(lines).Ok?
  {
    if lines != [] {
      var init := lines[..|lines| - 1];
      assert forall i :: 0 <= i < |init| ==> init[i] == lines[i];
      LoadedOk(init);
    }
  }

  /** The first line that does not unpack is the one reported, and nothing is read. */
  lemma {:induction false} LoadedFails(lines: seq<string>, i: nat)
    requires i < |lines| && |Fields(lines[i])| != 2
    requires forall j :: 0 <= j < i ==> |Fields(lines[j])| == 2
    ensures Loaded(lines) == Err(Unpack(lines[i]))
  {
    var pre := lines[..i];
    assert forall j :: 0 <= j < |pre| ==> pre[j] == lines[j];
    LoadedOk(pre);
    assert lines[..i + 1][..i] == pre;
    LoadedErrStays(lines, i + 1);
  }

  // ---------------------------------------------------------------- the update

  /** The table an update starts from: a missing ledger file is an empty table. */
  function Base(existing: Option<seq<string>>): Result<Table, Failure> {
    if existing.None? then Ok([]) else Loaded(existing.value)
  }

  /** The dictionary after today's count is stored. */
  function Updated(existing: Option<seq<string>>, today: string, count: nat): Result<Table, Failure> {
    match Base(existing)
    case Err(e) => Err(e)
    case Ok(t) => Ok(Put(t, today, Render(count)))
  }

  /** The counts of the entries in order, each read with `int()`; the first one refused fails the update. */
  function Counts(s: Table): (r: Result<seq<int>, Failure>)
    ensures r.Ok? ==> |r.value| == |s|
  {
    if s == [] then Ok([])
    else
      var e := s[|s| - 1];
      match Counts(s[..|s| - 1])
      case Err(err) => Err(err)
      case Ok(c) =>
        match ParseInt(e.1)
        case None => Err(NotANumber(e.0, e.1))
        case Some(n) => Ok(c + [n])
  }

  lemma {:induction false} CountsErrStays(s: Table, i: nat)
    requires i <= |s| && Counts(s[..i]).Err?
    ensures Counts(s) == Counts(s[..i])
    decreases |s| - i
  {
    if i < |s| {
      assert s[..i + 1][..i] == s[..i];
      CountsErrStays(s, i + 1);
    } else {
      assert s[..i] == s;
    }
  }

  /** The counts are read exactly when every count text is a number, and then they are those numbers. */
  lemma {:induction false} CountsAll(s: Table)
    ensures Counts(s).Ok? <==> Numbers(s)
    ensures Counts(s).Ok? ==> forall i :: 0 <= i < |s| ==> Counts(s).value[i] == ParseInt(s[i].1).value
  {
    if s != [] {
      var init := s[..|s| - 1];
      CountsAll(init);
      assert forall i :: 0 <= i < |init| ==> init[i] == s[i];
    }
  }

  /** The last count before the current entry, 0 before the first. */
  function Previous(c: seq<int>): int {
    if c == [] then 0 else c[|c| - 1]
  }

  /**
    The progress the counting loop leaves for `today`: the difference the
    loop computed at the last entry for `today`, or 0 when there is none.
   */
  function TodayDelta(s: Table, c: seq<int>, today: string): int
    requires |c| == |s|
  {
    if s == [] then 0
    else if s[|s| - 1].0 == today then c[|c| - 1] - Previous(c[..|c| - 1])
    else TodayDelta(s[..|s| - 1], c[..|c| - 1], today)
  }

  /** Today's progress from the entries in date order, once every count is read. */
  function Progress(s: Table, today: string): Result<int, Failure> {
    match Counts(s)
    case Err(e) => Err(e)
    case Ok(c) => Ok(TodayDelta(s, c, today))
  }

  /** The counting loop of `save_progress`: read each count in date order, remember the last, note today's difference. */
  method CountProgress(s: Table, today: string) returns (r: Result<int, Failure>)
    ensures r == Progress(s, today)
  {
    var lastCount := 0;
    var progress := 0;
    ghost var c: seq<int> := [];
    var i := 0;
    while i < |s|
      invariant 0 <= i <= |s|
      invariant Counts(s[..i]) == Ok(c) && |c| == i
      invariant lastCount == Previous(c)
      invariant progress == TodayDelta(s[..i], c, today)
    {
      assert s[..i + 1][..i] == s[..i];
      var n := ParseInt(s[i].1);
      if n.None? {
        CountsErrStays(s, i + 1);
        return Err(NotANumber(s[i].0, s[i].1));
      }
      if s[i].0 == today {
        progress := n.value - lastCount;
      }
      lastCount := n.value;
      c := c + [n.value];
      assert c[..i] == c[..|c| - 1];
      i := i + 1;
    }
    assert s[..i] == s;
    r := Ok(progress);
  }

  /** One ledger line as written back. */
  function Line(e: (string, string)): string {
    e.0 + "\t" + e.1 + "\n"
  }

  /** The file written back: one line per entry, in the order given. */
  function Written(s: Table): (r: seq<string>)
    ensures |r| == |s|
  {
    if s == [] then [] else Written(s[..|s| - 1]) + [Line(s[|s| - 1])]
  }

  /** Line `i` of the file is entry `i` as date, tab, count and newline. */
  lemma {:induction false} WrittenAt(s: Table, i: nat)
    requires i < |s|
    ensures Written(s)[i] == s[i].0 + "\t" + s[i].1 + "\n"
  {
    if i < |s| - 1 {
      WrittenAt(s[..|s| - 1], i);
    }
  }

  /** What a successful update produces: the dictionary, the lines written, today's progress. */
  datatype Saved = Saved(table: Table, written: seq<string>, progress: int)

  /** The ledger part of `save_progress`, as one function of the old file, the date and the count. */
  function Recorded(existing: Option<seq<string>>, today: string, count: nat): (r: Result<Saved, Failure>)
    ensures r.Ok? ==> Base(existing).Ok? && Get(r.value.table, today) == Some(Render(count))
    ensures r.Ok? ==> |r.value.written| == |r.value.table| && DistinctKeys(r.value.table)
  {
    match Updated(existing, today, count)
    case Err(e) => Err(e)
    case Ok(t) =>
      PutGet(Base(existing).value, today, Render(count));
      PutKeys(Base(existing).value, today, Render(count));
      var s := SortByKey(t);
      match Progress(s, today)
      case Err(e) => Err(e)
      case Ok(p) => Ok(Saved(t, Written(s), p))
  }

  /**
    `save_progress`, ledger part: read the old lines if the file exists,
    store today's count, walk the dates in order computing today's
    progress, then write every entry back in date order.
   */
  method SaveProgress(existing: Option<seq<string>>, today: string, count: nat) returns (r: Result<Saved, Failure>)
    ensures r == Recorded(existing, today, count)
  {
    var t: Table := [];
    if existing.Some? {
      var loaded := ReadLedger(existing.value);
      if loaded.Err? {
        return Err(loaded.error);
      }
      t := loaded.value;
    }
    t := Put(t, today, Render(count));
    var s := SortByKey(t);
    var progress := CountProgress(s, today);
    if progress.Err? {
      return Err(progress.error);
    }
    var written := WriteBack(s);
    r := Ok(Saved(t, written, progress.value));
  }

  /** `save_progress` as called: the count is the re-normalised manuscript's tokens, with no offset. */
  method RecordProgress(walk: Assembler.Walk, replacements: Normalizer.Table, existing: Option<seq<string>>, today: string)
    returns (r: Result<Saved, Failure>)
    ensures r == Recorded(existing, today, WordCounter.ManuscriptWords(walk, replacements))
  {
    var text := Assembler.PreProcess(walk, replacements);
    text := Normalizer.NormalizeMarkdown(text, replacements);
    r := SaveProgress(existing, today, |Split(text)|);
  }

  /** The writing loop of `save_progress`: one line per entry, in date order. */
  method WriteBack(s: Table) returns (written: seq<string>)
    ensures written == Written(s)
  {
    written := [];
    var j := 0;
    while j < |s|
      invariant 0 <= j <= |s| && written == Written(s[..j])
    {
      assert s[..j + 1][..j] == s[..j];
      written := written + [Line(s[j])];
      j := j + 1;
    }
    assert s[..j] == s;
  }

  // ---------------------------------------------------------------- what an update promises

  /**
    The update fails exactly when the old file has a line that does not
    unpack, or when some stored count is not a number; then nothing is
    written.
   */
  lemma RecordedFails(existing: Option<seq<string>>, today: string, count: nat)
    ensures Recorded(existing, today, count).Err? <==>
      Base(existing).Err? || !Numbers(SortByKey(Updated(existing, today, count).value))
  {
    if Base(existing).Ok? {
      var t := Put(Base(existing).value, today, Render(count));
      assert Updated(existing, today, count) == Ok(t);
      CountsAll(SortByKey(t));
    }
  }

  /** Every count text of the entries is one `int()` accepts. */
  predicate Numbers(s: Table) {
    forall i :: 0 <= i < |s| ==> ParseInt(s[i].1).Some?
  }

  /** A successful update, step by step: the table it stores, the counts it reads, the lines it writes. */
  lemma RecordedSteps(existing: Option<seq<string>>, today: string, count: nat)
    requires Recorded(existing, today, count).Ok?
    ensures Base(existing).Ok?
    ensures var o := Recorded(existing, today, count).value;
      var s := SortByKey(o.table);
      && o.table == Put(Base(existing).value, today, Render(count))
      && Counts(s).Ok?
      && o.progress == TodayDelta(s, Counts(s).value, today)
      && o.written == Written(s)
  {
  }

  /**
    After a successful update every date appears once, the lines are in
    strictly ascending date order, today's entry holds the fresh count
    whatever was stored for today before, and every other date keeps the
    count it had.
   */
  lemma RecordedTable(existing: Option<seq<string>>, today: string, count: nat)
    requires Recorded(existing, today, count).Ok?
    ensures var o := Recorded(existing, today, count).value;
      var s := SortByKey(o.table);
      && o.written == Written(s)
      && (forall i, j :: 0 <= i < j < |s| ==> s[i].0 != s[j].0 && LexLe(s[i].0, s[j].0))
      && (today, Render(count)) in s
      && forall x: (string, string) :: x.0 != today ==> (x in s <==> x in Base(existing).value)
  {
    var b := Base(existing).value;
    var t := Put(b, today, Render(count));
    PutKeys(b, today, Render(count));
    var s := SortByKey(t);
    forall i, j | 0 <= i < j < |s| ensures s[i].0 != s[j].0 && LexLe(s[i].0, s[j].0) {
      SortedDistinctStrict(s, i, j);
    }
    PutEntries(b, today, Render(count), (today, Render(count)));
    assert (today, Render(count)) in multiset(t);
    forall x: (string, string) | x.0 != today ensures x in s <==> x in b {
      PutEntries(b, today, Render(count), x);
      assert x in s <==> x in multiset(s);
      assert x in t <==> x in multiset(t);
    }
  }

  /** When some line does not unpack, the read fails. */
  lemma FirstBad(lines: seq<string>, i: nat)
    requires i < |lines| && |Fields(lines[i])| != 2
    ensures Loaded(lines).Err?
    decreases i
  {
    if exists j :: 0 <= j < i && |Fields(lines[j])| != 2 {
      var j :| 0 <= j < i && |Fields(lines[j])| != 2;
      FirstBad(lines, j);
    } else {
      LoadedFails(lines, i);
    }
  }

  /** With distinct dates, the progress is the difference at today's own entry. */
  lemma {:induction false} TodayDeltaAt(s: Table, c: seq<int>, today: string, i: nat)
    requires |c| == |s| && DistinctKeys(s) && i < |s| && s[i].0 == today
    ensures TodayDelta(s, c, today) == c[i] - (if i == 0 then 0 else c[i - 1])
  {
    var n := |s| - 1;
    if i < n {
      assert s[n].0 != today;
      var init := s[..n];
      assert DistinctKeys(init) by {
        assert forall a, b :: 0 <= a < b < |init| ==> init[a] == s[a] && init[b] == s[b];
      }
      TodayDeltaAt(init, c[..n], today, i);
    }
  }

  /**
    Today's progress is the fresh count less the count of the entry just
    before today in date order, or less 0 when today sorts first.
   */
  lemma RecordedProgress(existing: Option<seq<string>>, today: string, count: nat, i: nat)
    requires Recorded(existing, today, count).Ok?
    requires var s := SortByKey(Recorded(existing, today, count).value.table); i < |s| && s[i].0 == today
    ensures var o := Recorded(existing, today, count).value;
      var s := SortByKey(o.table);
      var c := Counts(s).value;
      s[i].1 == Render(count) && c[i] == count && o.progress == count - (if i == 0 then 0 else c[i - 1])
  {
    RecordedSteps(existing, today, count);
    RecordedTable(existing, today, count);
    var o := Recorded(existing, today, count).value;
    var s := SortByKey(o.table);
    assert DistinctKeys(s) by {
      forall a, b | 0 <= a < b < |s| ensures s[a].0 != s[b].0 {
      }
    }
    var j :| 0 <= j < |s| && s[j] == (today, Render(count));
    assert j == i;
    ProgressAt(s, today, count, i);
  }

  /** In distinct entries holding today's fresh count, the progress is that count less the previous entry's. */
  lemma ProgressAt(s: Table, today: string, count: nat, i: nat)
    requires DistinctKeys(s) && i < |s| && s[i] == (today, Render(count)) && Counts(s).Ok?
    ensures var c := Counts(s).value;
      c[i] == count && TodayDelta(s, c, today) == count - (if i == 0 then 0 else c[i - 1])
  {
    var c := Counts(s).value;
    CountsAll(s);
    ParseRender(count);
    TodayDeltaAt(s, c, today, i);
  }

  // ---------------------------------------------------------------- reading back what was written

  /**
    A date or count text that survives the write and the read unchanged:
    it stays on its line and in its field.
   */
  predicate Clean(x: string) {
    Trimmed(x) && '\t' !in x && '\n' !in x
  }

  /** A clean entry's line unpacks into that entry. */
  lemma LineFields(e: (string, string))
    requires Clean(e.0) && Clean(e.1)
    ensures Fields(Line(e)) == [e.0, e.1]
  {
    var body := e.0 + "\t" + e.1;
    assert Line(e) == body + "\n";
    assert Trimmed(body) by {
      assert body[0] == e.0[0];
      assert body[|body| - 1] == e.1[|e.1| - 1];
    }
    StripTrimmed(body, "\n");
    SplitOnPrefix(e.0, e.1, '\t');
    SplitOnPlain(e.1, '\t');
  }

  /** Reading back a written table of clean, distinct entries gives that table. */
  lemma {:induction false} ReadBack(s: Table)
    requires DistinctKeys(s) && AllClean(s)
    ensures Loaded(Written(s)) == Ok(s)
  {
    if s != [] {
      var n := |s| - 1;
      var init := s[..n];
      assert init + [s[n]] == s;
      CleanInit(s, n);
      ReadBack(init);
      ReadBackStep(init, s[n]);
    }
  }

  predicate AllClean(s: Table) {
    forall i :: 0 <= i < |s| ==> Clean(s[i].0) && Clean(s[i].1)
  }

  /** The entries before the last keep distinct, clean keys, none of them the last one's. */
  lemma CleanInit(s: Table, n: nat)
    requires n + 1 == |s| && DistinctKeys(s) && AllClean(s)
    ensures DistinctKeys(s[..n]) && AllClean(s[..n]) && s[n].0 !in KeySet(s[..n])
    ensures Clean(s[n].0) && Clean(s[n].1)
  {
    var init := s[..n];
    assert forall i :: 0 <= i < |init| ==> init[i] == s[i];
  }

  /** One more clean entry with a new date: its line reads back as that entry, at the end. */
  lemma ReadBackStep(init: Table, e: (string, string))
    requires Loaded(Written(init)) == Ok(init)
    requires e.0 !in KeySet(init) && Clean(e.0) && Clean(e.1)
    ensures Loaded(Written(init + [e])) == Ok(init + [e])
  {
    var w := Written(init + [e]);
    assert (init + [e])[..|init|] == init;
    assert w == Written(init) + [Line(e)];
    assert w[..|init|] == Written(init);
    LineFields(e);
    LoadedStep(w, e.0, e.1);
    PutNew(init, e.0, e.1);
  }

  lemma LoadedStep(lines: seq<string>, k: string, v: string)
    requires lines != [] && Fields(lines[|lines| - 1]) == [k, v] && Loaded(lines[..|lines| - 1]).Ok?
    ensures Loaded(lines) == Ok(Put(Loaded(lines[..|lines| - 1]).value, k, v))
  {
  }

  /** `str(n)` is a clean count text. */
  lemma RenderClean(n: nat)
    ensures Clean(Render(n))
  {
    var r := Render(n);
    assert !IsSpace(r[0]) && !IsSpace(r[|r| - 1]);
    assert '\t' !in r by {
      forall i | 0 <= i < |r| ensures r[i] != '\t' { assert IsDigit(r[i]); }
    }
  }

  /**
    When the old entries and today's date are clean, the next update reads
    back exactly the sorted table this one wrote, today's count included.
   */
  lemma RecordedReadBack(existing: Option<seq<string>>, today: string, count: nat)
    requires Recorded(existing, today, count).Ok? && Clean(today)
    requires forall x: (string, string) :: x in Base(existing).value ==> Clean(x.0) && Clean(x.1)
    ensures var o := Recorded(existing, today, count).value;
      Loaded(o.written) == Ok(SortByKey(o.table))
  {
    RecordedTable(existing, today, count);
    var o := Recorded(existing, today, count).value;
    var s := SortByKey(o.table);
    RenderClean(count);
    forall i | 0 <= i < |s| ensures Clean(s[i].0) && Clean(s[i].1) {
      assert s[i] in s;
    }
    assert DistinctKeys(s) by {
      forall a, b | 0 <= a < b < |s| ensures s[a].0 != s[b].0 {
      }
    }
    ReadBack(s);
  }

  // ---------------------------------------------------------------- the daily series

  /** Each count less the one before it, the first less 0. */
  function Deltas(c: seq<int>): (r: seq<int>)
    ensures |r| == |c|
  {
    if c == [] then [] else Deltas(c[..|c| - 1]) + [c[|c| - 1] - Previous(c[..|c| - 1])]
  }

  lemma {:induction false} DeltasAt(c: seq<int>, i: nat)
    requires i < |c|
    ensures Deltas(c)[i] == c[i] - (if i == 0 then 0 else c[i - 1])
  {
    var n := |c| - 1;
    if i < n {
      DeltasAt(c[..n], i);
    }
  }

  function Sum(xs: seq<int>): int {
    if xs == [] then 0 else Sum(xs[..|xs| - 1]) + xs[|xs| - 1]
  }

  /** The daily differences add up to the latest count. */
  lemma {:induction false} DeltasSum(c: seq<int>)
    ensures Sum(Deltas(c)) == Previous(c)
  {
    if c != [] {
      var init := c[..|c| - 1];
      DeltasSum(init);
      assert Deltas(c)[..|c| - 1] == Deltas(init);
    }
  }

  /** The loop behind the daily-progress chart: each entry's count less the previous entry's. */
  method DailySeries(s: Table) returns (ys: seq<int>)
    requires Counts(s).Ok?
    ensures ys == Deltas(Counts(s).value)
  {
    ghost var c := Counts(s).value;
    ys := [];
    var lastCount := 0;
    var i := 0;
    while i < |s|
      invariant 0 <= i <= |s| == |c|
      invariant ys == Deltas(c[..i]) && lastCount == Previous(c[..i])
    {
      CountAt(s, i);
      var n := ParseInt(s[i].1).value;
      DeltasSnoc(c, i);
      ys := ys + [n - lastCount];
      lastCount := n;
      i := i + 1;
    }
    assert c[..i] == c;
  }

  /** Entry `i`'s count as `int()` reads it. */
  lemma CountAt(s: Table, i: nat)
    requires Counts(s).Ok? && i < |s|
    ensures ParseInt(s[i].1) == Some(Counts(s).value[i])
  {
    CountsAll(s);
  }

  /** One more count adds its difference with the one before to the series. */
  lemma DeltasSnoc(c: seq<int>, i: nat)
    requires i < |c|
    ensures Deltas(c[..i + 1]) == Deltas(c[..i]) + [c[i] - Previous(c[..i])]
    ensures Previous(c[..i + 1]) == c[i]
  {
    assert c[..i + 1][..i] == c[..i];
  }

  /** Today's progress is today's point of the daily series. */
  lemma ProgressInSeries(existing: Option<seq<string>>, today: string, count: nat, i: nat)
    requires Recorded(existing, today, count).Ok?
    requires var s := SortByKey(Recorded(existing, today, count).value.table); i < |s| && s[i].0 == today
    ensures var o := Recorded(existing, today, count).value;
      o.progress == Deltas(Counts(SortByKey(o.table)).value)[i]
  {
    RecordedProgress(existing, today, count, i);
    var o := Recorded(existing, today, count).value;
    DeltasAt(Counts(SortByKey(o.table)).value, i);
  }
}
