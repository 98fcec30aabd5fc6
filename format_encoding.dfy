/**
 * `fix_encoding_issues`: replaces the mojibake that UTF-8 text shows after being
 * decoded as Windows-1252, entry by entry, in the order of the replacement table.
 */
module FormatEncoding {
  import opened Scan

  /** "â€" : the first two characters of every three-byte mojibake key. */
  const Moji: string := "\U{00E2}\U{20AC}"
  /** The mojibake of the right single quote ’. */
  const Apostrophe: string := Moji + "\U{2122}"

  /**
   * The replacement table in dictionary order. The source's literal lists the
   * key â€" twice (em dash, then en dash); a Python dict keeps the first
   * position and the last value, so it appears once, mapped to the en dash.
   */
  const EncodingFixes: seq<(string, string)> := [
    (Apostrophe, "'"),
    (Moji + "\U{0153}", "\""),
    (Moji + "\U{009D}", "\""),
    (Moji + "\"", "\U{2013}"),
    (Moji + "\U{00A6}", "..."),
    (Moji + "\U{00A2}", "\U{2022}"),
    ("\U{00C2}", " "),
    (Moji + "\U{009C}", "\""),
    (Apostrophe + "s", "'s"),
    (Apostrophe + "t", "'t"),
    (Apostrophe + "m", "'m"),
    (Apostrophe + "ve", "'ve"),
    (Apostrophe + "ll", "'ll"),
    (Apostrophe + "re", "'re"),
    (Apostrophe + "d", "'d")
  ]

  /** The text after the replacements of `fixes`, applied first to last. */
  function ApplyFixes(text: string, fixes: seq<(string, string)>): string {
    if fixes == [] then text
    else
      var last := fixes[|fixes| - 1];
      ReplaceAll(ApplyFixes(text, fixes[..|fixes| - 1]), last.0, last.1)
  }

  /** One more entry of the table is one more replacement. */
  lemma ApplyFixesStep(text: string, n: nat)
    requires 1 <= n <= |EncodingFixes|
    ensures ApplyFixes(text, EncodingFixes[..n])
         == ReplaceAll(ApplyFixes(text, EncodingFixes[..n - 1]), EncodingFixes[n - 1].0, EncodingFixes[n - 1].1)
  {
    assert EncodingFixes[..n][..n - 1] == EncodingFixes[..n - 1];
  }

  /** The replacement loop of `fix_encoding_issues`. */
  method FixEncodingReplacements(text: string) returns (r: string)
    ensures r == ApplyFixes(text, EncodingFixes)
  {
    r := text;
    for i := 0 to |EncodingFixes|
      invariant r == ApplyFixes(text, EncodingFixes[..i])
    {
      var (bad, good) := EncodingFixes[i];
      assert EncodingFixes[..i + 1][..i] == EncodingFixes[..i];
      r := ReplaceAll(r, bad, good);
    }
    assert EncodingFixes[..|EncodingFixes|] == EncodingFixes;
  }

  /**
   * `fix_encoding_issues`: the replacement loop, then Unicode NFKD
   * normalisation, which is a parameter of the model.
   */
  method FixEncodingIssues(text: string, nfkd: string -> string) returns (r: string)
    ensures r == nfkd(ApplyFixes(text, EncodingFixes))
  {
    r := FixEncodingReplacements(text);
    r := nfkd(r);
  }

  /** Every key starts with â or Â. */
  lemma KeysStartWithMarks(k: nat)
    requires k < |EncodingFixes|
    ensures EncodingFixes[k].0 != "" && EncodingFixes[k].0[0] in {'\U{00E2}', '\U{00C2}'}
  {
  }

  /** Text that contains neither â nor Â comes out of the loop unchanged. */
  lemma {:induction false} CleanTextUnchanged(text: string, n: nat)
    requires n <= |EncodingFixes|
    requires '\U{00E2}' !in text && '\U{00C2}' !in text
    ensures ApplyFixes(text, EncodingFixes[..n]) == text
  {
    if n > 0 {
      CleanTextUnchanged(text, n - 1);
      ApplyFixesStep(text, n);
      MarkFreeAbsent(text, n - 1);
      ReplaceAllAbsent(text, EncodingFixes[n - 1].0, EncodingFixes[n - 1].1);
    }
  }

  /** No key occurs in a text without â and Â. */
  lemma MarkFreeAbsent(text: string, i: nat)
    requires i < |EncodingFixes|
    requires '\U{00E2}' !in text && '\U{00C2}' !in text
    ensures EncodingFixes[i].0 != "" && Absent(text, EncodingFixes[i].0)
  {
    var key := EncodingFixes[i].0;
    KeysStartWithMarks(i);
    forall k | 0 <= k <= |text| ensures !OccursAt(text, key, k) {
      assert k < |text| ==> text[k] != key[0];
    }
  }

  /** After the first entry, no â€™ is left, and entries two to eight create none. */
  lemma {:induction false} NoApostropheLeft(text: string, n: nat)
    requires 1 <= n <= 8
    ensures Absent(ApplyFixes(text, EncodingFixes[..n]), Apostrophe)
  {
    var fixes := EncodingFixes[..n];
    assert fixes[..n - 1] == EncodingFixes[..n - 1];
    var (bad, good) := EncodingFixes[n - 1];
    if n == 1 {
      assert EncodingFixes[..0] == [];
      ReplaceAllRemoves(text, bad, good);
    } else {
      NoApostropheLeft(text, n - 1);
      EarlyEntryAvoidsApostrophe(n - 1);
      ReplaceAllKeepsAbsent(ApplyFixes(text, EncodingFixes[..n - 1]), bad, good, Apostrophe);
    }
  }

  /** Entries two to eight have non-empty keys and replacements that contain no character of â€™. */
  lemma EarlyEntryAvoidsApostrophe(i: nat)
    requires 1 <= i < 8
    ensures EncodingFixes[i].0 != "" && EncodingFixes[i].1 != ""
    ensures Disjoint(EncodingFixes[i].1, Apostrophe)
  {
  }

  /** Entries nine to fifteen all start with â€™. */
  lemma ContractionKey(i: nat)
    requires 8 <= i < |EncodingFixes|
    ensures |Apostrophe| <= |EncodingFixes[i].0| && EncodingFixes[i].0[..|Apostrophe|] == Apostrophe
  {
  }

  /**
   * The seven contraction entries (â€™s, â€™t, ... ) never fire: the first
   * entry has already replaced every â€™, so the table behaves as its first
   * eight entries.
   */
  lemma {:induction false} ContractionEntriesUnreachable(text: string, n: nat)
    requires 8 <= n <= |EncodingFixes|
    ensures ApplyFixes(text, EncodingFixes[..n]) == ApplyFixes(text, EncodingFixes[..8])
  {
    if n > 8 {
      ContractionEntriesUnreachable(text, n - 1);
      ApplyFixesStep(text, n);
      NoApostropheLeft(text, 8);
      ContractionUnchanged(ApplyFixes(text, EncodingFixes[..8]), n - 1);
    }
  }

  /** A contraction entry leaves a text without â€™ unchanged. */
  lemma ContractionUnchanged(s: string, i: nat)
    requires 8 <= i < |EncodingFixes| && Absent(s, Apostrophe)
    ensures ReplaceAll(s, EncodingFixes[i].0, EncodingFixes[i].1) == s
  {
    ContractionKey(i);
    AbsentExtended(s, Apostrophe, EncodingFixes[i].0);
    ReplaceAllAbsent(s, EncodingFixes[i].0, EncodingFixes[i].1);
  }

  /** Entry seven turns Â into a space; entry eight replaces â€œ with a plain quote. */
  lemma NonBreakingEntries()
    ensures EncodingFixes[6].0 == "\U{00C2}" && EncodingFixes[6].1 == " "
    ensures EncodingFixes[7].0 != "" && EncodingFixes[7].1 == "\""
  {
  }

  /** No Â survives the loop: entry seven replaces each one and no later replacement has one. */
  lemma NoNonBreakingMarkLeft(text: string)
    ensures Absent(ApplyFixes(text, EncodingFixes), "\U{00C2}")
  {
    var nbsp := "\U{00C2}";
    NonBreakingEntries();
    ApplyFixesStep(text, 7);
    ReplaceAllRemoves(ApplyFixes(text, EncodingFixes[..6]), nbsp, " ");
    ApplyFixesStep(text, 8);
    ReplaceAllKeepsAbsent(ApplyFixes(text, EncodingFixes[..7]), EncodingFixes[7].0, "\"", nbsp);
    ContractionEntriesUnreachable(text, |EncodingFixes|);
    assert EncodingFixes[..|EncodingFixes|] == EncodingFixes;
  }
}
