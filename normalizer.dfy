/**
  The text normaliser applied to every manuscript fragment
  (`apply_replacements` and `normalize_markdown`): the configured literal
  replacements, `strip()`, deletion of horizontal-rule markers as plain
  substrings, and one non-overlapping pass collapsing three newlines to two.
 */
module Normalizer {
  import opened Strings

  /**
    The `replacements` table of the configuration: `(key, value)` pairs in
    the dictionary's iteration order. A null table counts as empty, as the
    source's truthiness test makes it.
   */
  type Table = seq<(string, string)>

  /** Every key replaced by its value, one key after the other in table order. */
  function Replaced(table: Table, s: string): string {
    if table == [] then s
    else
      var last := table[|table| - 1];
      ReplaceAll(Replaced(table[..|table| - 1], s), last.0, last.1)
  }

  /** `apply_replacements`: runs through the table, replacing into the text as it goes. */
  method ApplyReplacements(table: Table, s: string) returns (r: string)
    ensures r == Replaced(table, s)
    ensures table == [] ==> r == s
  {
    r := s;
    if |table| > 0 {
      var i := 0;
      while i < |table|
        invariant 0 <= i <= |table|
        invariant r == Replaced(table[..i], s)
      {
        assert table[..i + 1][..i] == table[..i];
        r := ReplaceAll(r, table[i].0, table[i].1);
        i := i + 1;
      }
      assert table[..|table|] == table;
    }
  }

  /** Text in which no key of the table occurs comes through the replacements untouched. */
  lemma {:induction false} ReplacedAbsent(table: Table, s: string)
    requires forall i :: 0 <= i < |table| ==> |table[i].0| > 0 && !Contains(s, table[i].0)
    ensures Replaced(table, s) == s
  {
    if table != [] {
      ReplacedAbsent(table[..|table| - 1], s);
      ReplaceAbsent(s, table[|table| - 1].0, table[|table| - 1].1);
    }
  }

  /**
    The order of the table matters once a value contains another key:
    with `a -> b` then `b -> c`, an `a` ends as `c`; in the other order it
    ends as `b`.
   */
  lemma ReplacedOrderMatters()
    ensures Replaced([("a", "b"), ("b", "c")], "a") == "c"
    ensures Replaced([("b", "c"), ("a", "b")], "a") == "b"
  {
    assert [("a", "b"), ("b", "c")][..1] == [("a", "b")];
    assert [("b", "c"), ("a", "b")][..1] == [("b", "c")];
    assert ReplaceAll("a", "a", "b") == "b" + ReplaceAll("", "a", "b");
    assert ReplaceAll("b", "b", "c") == "c" + ReplaceAll("", "b", "c");
    ReplaceMissingChar("a", "b", "c", 'b');
  }

  /** No pattern holding a `-` occurs in text without one. */
  lemma DashPassesIdle(t: string)
    ensures '-' !in t ==> ReplaceAll(t, "----\n", "") == t && ReplaceAll(t, "\n----", "") == t
    ensures '-' !in t ==> ReplaceAll(t, "---\n", "") == t && ReplaceAll(t, "\n---", "") == t
  {
    if '-' !in t {
      ReplaceMissingChar(t, "----\n", "", '-');
      ReplaceMissingChar(t, "\n----", "", '-');
      ReplaceMissingChar(t, "---\n", "", '-');
      ReplaceMissingChar(t, "\n---", "", '-');
    }
  }

  /**
    The four horizontal-rule deletions of `normalize_markdown`, in the
    source's order. They only ever shorten the text, and text without a `-`
    passes through untouched.
   */
  function StripRules(t: string): (r: string)
    ensures |r| <= |t|
    ensures '-' !in t ==> r == t
  {
    DashPassesIdle(t);
    var t := ReplaceAll(t, "----\n", "");
    var t := ReplaceAll(t, "\n----", "");
    var t := ReplaceAll(t, "---\n", "");
    ReplaceAll(t, "\n---", "")
  }

  /**
    The final step of `normalize_markdown`: one left-to-right pass turning
    three newlines into two. Text without three newlines in a row is left
    alone.
   */
  function CollapseBlankLines(t: string): (r: string)
    ensures |r| <= |t|
    ensures !Contains(t, "\n\n\n") ==> r == t
  {
    assert !Contains(t, "\n\n\n") ==> ReplaceAll(t, "\n\n\n", "\n\n") == t by {
      if !Contains(t, "\n\n\n") {
        ReplaceAbsent(t, "\n\n\n", "\n\n");
      }
    }
    ReplaceAll(t, "\n\n\n", "\n\n")
  }

  /** `normalize_markdown`: replacements, `strip()`, rule deletions, blank-line collapse. */
  function Normalize(s: string, table: Table): (r: string)
    ensures table == [] ==> |r| <= |s|
  {
    CollapseBlankLines(StripRules(Strip(Replaced(table, s))))
  }

  /** `normalize_markdown` as the tool runs it: the replacement loop, then the fixed steps in order. */
  method NormalizeMarkdown(s: string, table: Table) returns (r: string)
    ensures r == Normalize(s, table)
  {
    r := ApplyReplacements(table, s);
    r := Strip(r);
    r := ReplaceAll(r, "----\n", "");
    r := ReplaceAll(r, "\n----", "");
    r := ReplaceAll(r, "---\n", "");
    r := ReplaceAll(r, "\n---", "");
    r := ReplaceAll(r, "\n\n\n", "\n\n");
  }

  /** A trimmed piece of text on one line with no `-`: what the rule markers cannot touch. */
  predicate Plain(s: string) {
    Trimmed(s) && '\n' !in s && '-' !in s
  }

  /**
    Text that is already normal comes through unchanged: trimmed, with no
    `-`, no three newlines in a row, and no occurrence of a (non-empty)
    key of the table.
   */
  lemma NormalizeFixed(s: string, table: Table)
    requires Trimmed(s) && '-' !in s && !Contains(s, "\n\n\n")
    requires forall i :: 0 <= i < |table| ==> |table[i].0| > 0 && !Contains(s, table[i].0)
    ensures Normalize(s, table) == s
  {
    ReplacedAbsent(table, s);
    StripTrimmed(s, []);
    assert s + [] == s;
  }

  /** A plain line of text is already normal. */
  lemma NormalizePlain(s: string)
    requires Plain(s)
    ensures Normalize(s, []) == s
  {
    MissingCharExcludes(s, "\n\n\n", '\n');
    NormalizeFixed(s, []);
  }

  /**
    One collapse pass over a run of `k` newlines followed by text without
    newlines leaves `k - k / 3` newlines: three become two, four become
    three, six become four.
   */
  lemma {:induction false} CollapseRunThen(k: nat, b: string)
    requires '\n' !in b
    ensures ReplaceAll(Newlines(k) + b, "\n\n\n", "\n\n") == Newlines(k - k / 3) + b
    decreases k, 1
  {
    if k >= 3 {
      CollapseGroup(k, b);
    } else if k > 0 {
      CollapseShortRun(k, b);
    } else {
      assert Newlines(k) + b == b;
      ReplaceMissingChar(b, "\n\n\n", "\n\n", '\n');
    }
  }

  /** A group of three newlines at the front becomes two. */
  lemma {:induction false} CollapseGroup(k: nat, b: string)
    requires '\n' !in b && k >= 3
    ensures ReplaceAll(Newlines(k) + b, "\n\n\n", "\n\n") == Newlines(k - k / 3) + b
    decreases k, 0
  {
    var x := Newlines(k) + b;
    var m := k - 3 - (k - 3) / 3;
    NewlinesSplit(k, b);
    ReplaceHead(x, "\n\n\n", "\n\n");
    CollapseRunThen(k - 3, b);
    NewlinesGroupCount(k);
    AppendAssoc("\n\n", Newlines(m), b);
  }

  lemma NewlinesSplit(k: nat, b: string)
    requires k >= 3
    ensures (Newlines(k) + b)[..3] == "\n\n\n" && (Newlines(k) + b)[3..] == Newlines(k - 3) + b
  {
    NewlinesAppend(3, k - 3);
    assert Newlines(3) == "\n\n\n";
  }

  lemma NewlinesGroupCount(k: nat)
    requires k >= 3
    ensures Newlines(k - k / 3) == "\n\n" + Newlines(k - 3 - (k - 3) / 3)
  {
    assert (k - 3) / 3 == k / 3 - 1;
    NewlinesAppend(2, k - 3 - (k - 3) / 3);
    assert Newlines(2) == "\n\n";
  }

  /** One or two newlines before the text are too few to collapse. */
  lemma {:induction false} CollapseShortRun(k: nat, b: string)
    requires '\n' !in b && 0 < k < 3
    ensures ReplaceAll(Newlines(k) + b, "\n\n\n", "\n\n") == Newlines(k - k / 3) + b
    decreases k, 0
  {
    var x := Newlines(k) + b;
    assert !StartsWith(x, "\n\n\n") by {
      if k < |x| {
        assert x[k] == b[0];
      }
      MismatchNotStart(x, "\n\n\n", k);
    }
    ReplaceSkip(x, "\n\n\n", "\n\n");
    assert x[0] == '\n' && x[1..] == Newlines(k - 1) + b;
    CollapseRunThen(k - 1, b);
    assert k / 3 == 0 && (k - 1) / 3 == 0;
    AppendAssoc("\n", Newlines(k - 1), b);
  }

  /** Two newline-free pieces one newline apart are left alone by the collapse. */
  lemma CollapseOneNewline(a: string, b: string)
    requires '\n' !in a && '\n' !in b
    ensures CollapseBlankLines(a + "\n" + b) == a + "\n" + b
  {
    ReplaceThrough(a, "\n" + b, "\n\n\n", "\n\n");
    CollapseRunThen(1, b);
    assert Newlines(1) == "\n";
    assert a + "\n" + b == a + ("\n" + b);
  }

  /** Two plain lines joined by dash-free text: `strip()` and the rule deletions leave the whole alone. */
  lemma PlainJoinSettled(a: string, n: string, b: string)
    requires Plain(a) && Plain(b) && '-' !in n
    ensures Strip(Replaced([], a + n + b)) == a + n + b
    ensures StripRules(a + n + b) == a + n + b
  {
    var x := a + n + b;
    assert x[0] == a[0] && x[|x| - 1] == b[|b| - 1];
    StripTrimmed(x, []);
    assert x + [] == x;
  }

  /** The collapse on a run of `k` newlines between two lines without newlines. */
  lemma CollapseBetween(a: string, b: string, k: nat)
    requires '\n' !in a && '\n' !in b
    ensures CollapseBlankLines(a + Newlines(k) + b) == a + Newlines(k - k / 3) + b
  {
    var n := Newlines(k);
    var m := Newlines(k - k / 3);
    assert a + n + b == a + (n + b);
    assert a + m + b == a + (m + b);
    ReplaceThrough(a, n + b, "\n\n\n", "\n\n");
    CollapseRunThen(k, b);
  }

  /**
    Between two plain lines, a run of `k` newlines keeps `k - k / 3` of
    them: the collapse is one pass, not a loop to a fixed point, so four
    newlines normalise to three.
   */
  lemma NewlineRun(a: string, b: string, k: nat)
    requires Plain(a) && Plain(b)
    ensures Normalize(a + Newlines(k) + b, []) == a + Newlines(k - k / 3) + b
  {
    assert '-' !in Newlines(k);
    PlainJoinSettled(a, Newlines(k), b);
    CollapseBetween(a, b, k);
  }

  /**
    Normalising twice is not normalising once: four newlines between two
    plain lines become three, and a second pass makes them two.
   */
  lemma NormalizeNotIdempotent(a: string, b: string)
    requires Plain(a) && Plain(b)
    ensures Normalize(a + Newlines(4) + b, []) == a + Newlines(3) + b
    ensures Normalize(Normalize(a + Newlines(4) + b, []), []) == a + Newlines(2) + b
    ensures Normalize(Normalize(a + Newlines(4) + b, []), []) != Normalize(a + Newlines(4) + b, [])
  {
    NewlineRun(a, b, 4);
    NewlineRun(a, b, 3);
    assert |a + Newlines(2) + b| != |a + Newlines(3) + b|;
  }

  /** A pattern whose first character occurs nowhere else is deleted exactly once. */
  lemma DeleteOnce(c: string, p: string, b: string)
    requires |p| > 0 && p[0] !in c && p[0] !in b
    ensures ReplaceAll(c + (p + b), p, "") == c + b
  {
    assert ReplaceAll(p + b, p, "") == b by {
      assert (p + b)[..|p|] == p && (p + b)[|p|..] == b;
      ReplaceHead(p + b, p, "");
      ReplaceMissingChar(b, p, "", p[0]);
    }
    ReplaceThrough(c, p + b, p, "");
  }

  /** Three dashes followed by a newline hold no run of four dashes. */
  lemma ThreeDashesNoFour(b: string, p: string)
    requires '-' !in b
    requires p == "----\n" || p == "\n----"
    ensures !Contains("---\n" + b, p)
  {
    var v := "\n" + b;
    var w := "---" + v;
    assert w == "---\n" + b;
    MissingCharExcludes(v, p, '-');
    forall i | 0 <= i < 3 ensures !StartsWith(w[i..], p) {
      assert w[i..][0] == '-' && w[i..][3 - i] == '\n';
      if p == "----\n" {
        MismatchNotStart(w[i..], p, 3 - i);
      } else {
        MismatchNotStart(w[i..], p, 0);
      }
    }
    NotContainsConcat("---", v, p);
  }

  /** A `---` line after a line without dashes holds no run of four dashes, so neither four-dash deletion applies. */
  lemma RuleLineNoFour(a: string, b: string, p: string)
    requires '-' !in a && '\n' !in a && '-' !in b
    requires p == "----\n" || p == "\n----"
    ensures ReplaceAll((a + "\n") + ("---\n" + b), p, "") == (a + "\n") + ("---\n" + b)
  {
    var u := a + "\n";
    var v := "---\n" + b;
    ThreeDashesNoFour(b, p);
    forall i | 0 <= i < |u| ensures !StartsWith((u + v)[i..], p) {
      var t := (u + v)[i..];
      if i < |a| {
        assert t[0] == a[i];
        MismatchNotStart(t, p, 0);
      } else {
        assert t[0] == '\n' && t[4] == v[3] == '\n';
        if p == "----\n" {
          MismatchNotStart(t, p, 0);
        } else {
          MismatchNotStart(t, p, 4);
        }
      }
    }
    NotContainsConcat(u, v, p);
    ReplaceAbsent(u + v, p, "");
  }

  /** The rule deletions on a `---` or `----` line between two dash-free lines. */
  lemma RuleLineStripped(a: string, b: string, rule: string)
    requires '-' !in a && '\n' !in a && '-' !in b
    requires rule == "---" || rule == "----"
    ensures StripRules(a + "\n" + rule + "\n" + b) == a + "\n" + b
  {
    var c := a + "\n";
    var p := rule + "\n";
    var x := c + (p + b);
    assert a + "\n" + rule + "\n" + b == x;
    assert a + "\n" + b == c + b;
    assert ReplaceAll(x, p, "") == c + b by {
      DeleteOnce(c, p, b);
    }
    assert '-' !in c + b;
    DashPassesIdle(c + b);
    if rule == "---" {
      assert p == "---\n";
      assert ReplaceAll(x, "----\n", "") == x by {
        RuleLineNoFour(a, b, "----\n");
      }
      assert ReplaceAll(x, "\n----", "") == x by {
        RuleLineNoFour(a, b, "\n----");
      }
    } else {
      assert p == "----\n";
    }
  }

  /**
    A line holding only `---` or `----` between two plain lines is deleted
    together with the newline after it, leaving the two lines one newline
    apart.
   */
  lemma RuleLineRemoved(a: string, b: string, rule: string)
    requires Plain(a) && Plain(b)
    requires rule == "---" || rule == "----"
    ensures Normalize(a + "\n" + rule + "\n" + b, []) == a + "\n" + b
  {
    var x := a + "\n" + rule + "\n" + b;
    assert x[0] == a[0] && x[|x| - 1] == b[|b| - 1];
    StripTrimmed(x, []);
    assert x + [] == x;
    RuleLineStripped(a, b, rule);
    CollapseOneNewline(a, b);
  }
}
