/**
 * `add_reading_pauses`: a comma after each of nine transition phrases,
 * matched anywhere and in any case and rewritten as the table spells them,
 * then a comma after a word `So` that is followed by spaces and a capital.
 *
 * As written the comma is added even when one is already there, so the very
 * common `However, …` reads `However,, …`. The corrected rule adds no comma
 * after a phrase that a comma follows.
 */
module FormatPauses {
  import opened Wrappers
  import opened Text
  import opened Scan

  const Transitions: seq<string> := [
    "However", "Meanwhile", "Additionally", "Furthermore", "Nevertheless",
    "On the other hand", "For example", "In fact", "As a result"
  ]

  /** Whether a phrase already followed by a comma gets another one. */
  datatype CommaRule = AlwaysComma | CommaUnlessPresent

  /** A comma right after the first `n` characters of `t`. */
  predicate CommaAfter(t: string, n: nat) { n < |t| && t[n] == ',' }

  /** `(<phrase>)` ignoring case, replaced by the phrase and a comma. */
  function TransitionAt(w: string, m: CommaRule, t: string): Option<Hit> {
    if w != "" && FoldsTo(t, 0, w) && (m == AlwaysComma || !CommaAfter(t, |w|))
    then Some(Hit(|w|, w + ","))
    else None
  }

  function TransitionRule(w: string, m: CommaRule): Rule {
    (t: string) => TransitionAt(w, m, t)
  }

  /** The phrases of `ws`, one `re.sub` after the other. */
  function PausesAfter(ws: seq<string>, m: CommaRule, text: string): string
    decreases |ws|
  {
    if ws == [] then text else PausesAfter(ws[1..], m, Sub(TransitionRule(ws[0], m), text))
  }

  /** `\s+[A-Z]` at position `j`: spaces, then a capital letter. */
  predicate SpacesThenCapital(s: string, j: nat) {
    j <= |s| && 0 < RunFrom(s, j, IsSpace) && j + RunFrom(s, j, IsSpace) < |s| && IsUpper(s[j + RunFrom(s, j, IsSpace)])
  }

  /** `\bSo\b(?=\s+[A-Z])`, with case, replaced by `So,`; the look-ahead consumes nothing. */
  function SoAt(s: string, i: nat): Option<Hit> {
    if i + 2 <= |s| && s[i] == 'S' && s[i + 1] == 'o' && Boundary(s, i) && Boundary(s, i + 2) && SpacesThenCapital(s, i + 2)
    then Some(Hit(2, "So,"))
    else None
  }

  function SoRule(): RuleAt {
    (s: string, i: nat) => SoAt(s, i)
  }

  /** `add_reading_pauses` as written. */
  function ReadingPausesAsWritten(text: string): string {
    SubAll(SoRule(), PausesAfter(Transitions, AlwaysComma, text))
  }

  /** `add_reading_pauses` with no second comma after a phrase. */
  function ReadingPauses(text: string): string {
    SubAll(SoRule(), PausesAfter(Transitions, CommaUnlessPresent, text))
  }

  /** The loop of `add_reading_pauses` over the phrases, then the `So` rule, as the program writes them. */
  method AddReadingPauses(text: string) returns (r: string)
    ensures r == ReadingPausesAsWritten(text)
  {
    r := text;
    assert Transitions[0..] == Transitions;
    for i := 0 to |Transitions|
      invariant PausesAfter(Transitions[i..], AlwaysComma, r) == PausesAfter(Transitions, AlwaysComma, text)
    {
      var transition := Transitions[i];
      assert Transitions[i..][1..] == Transitions[i + 1..];
      r := Sub(TransitionRule(transition, AlwaysComma), r);
    }
    assert Transitions[|Transitions|..] == [];
    r := SubAll(SoRule(), r);
  }

  // ---------------------------------------------------------------- only commas are added

  lemma {:induction false} SameCount(a: string, b: string, c: char)
    requires |a| == |b| && forall k :: 0 <= k < |a| ==> (a[k] == c <==> b[k] == c)
    ensures multiset(a)[c] == multiset(b)[c]
    decreases |a|
  {
    if a != "" {
      SameCount(a[1..], b[1..], c);
      assert a == [a[0]] + a[1..];
      assert b == [b[0]] + b[1..];
    }
  }

  /** Ignoring case leaves every character that is not a letter where it was. */
  lemma FoldsToCount(s: string, i: nat, w: string, c: char)
    requires FoldsTo(s, i, w) && !IsAlpha(c)
    ensures multiset(s[i..i + |w|])[c] == multiset(w)[c]
  {
    var t := s[i..i + |w|];
    forall k | 0 <= k < |w| ensures t[k] == c <==> w[k] == c {
      assert Lower(s[i + k]) == Lower(w[k]);
    }
    SameCount(t, w, c);
  }

  /** A phrase keeps its spaces and other non-letters and gains one comma. */
  lemma TransitionKeepsCount(w: string, m: CommaRule, c: char)
    requires !IsAlpha(c) && c != ','
    ensures CountKept(TransitionRule(w, m), c)
  {
    forall t | HitsAt(TransitionRule(w, m), t)
      ensures multiset(TransitionAt(w, m, t).value.rep)[c] == multiset(t[..|w|])[c]
    {
      FoldsToCount(t, 0, w, c);
      assert t[0..|w|] == t[..|w|];
    }
  }

  lemma {:induction false} PausesAfterKeepsCount(ws: seq<string>, m: CommaRule, text: string, c: char)
    requires !IsAlpha(c) && c != ','
    ensures multiset(PausesAfter(ws, m, text))[c] == multiset(text)[c]
    decreases |ws|
  {
    if ws != [] {
      TransitionKeepsCount(ws[0], m, c);
      SubKeepsCount(TransitionRule(ws[0], m), text, c);
      PausesAfterKeepsCount(ws[1..], m, Sub(TransitionRule(ws[0], m), text), c);
    }
  }

  lemma SoKeepsCount(c: char)
    requires c != ','
    ensures CountKeptAt(SoRule(), c)
  {
    var g := SoRule();
    forall s: string, i: nat | HitsAtIndex(g, s, i)
      ensures multiset(g(s, i).value.rep)[c] == multiset(s[i..i + g(s, i).value.len])[c]
    {
      assert g(s, i) == Some(Hit(2, "So,"));
      assert s[i..i + 2] == "So";
      assert multiset("So,")[c] == multiset("So")[c];
    }
  }

  /**
   * Adding pauses changes no character but letters and commas: every other
   * character (space, digit, punctuation) occurs as often as before, in both
   * versions.
   */
  lemma PausesOnlyAddCommas(text: string, c: char)
    requires !IsAlpha(c) && c != ','
    ensures multiset(ReadingPauses(text))[c] == multiset(text)[c]
    ensures multiset(ReadingPausesAsWritten(text))[c] == multiset(text)[c]
  {
    SoKeepsCount(c);
    var p := PausesAfter(Transitions, CommaUnlessPresent, text);
    PausesAfterKeepsCount(Transitions, CommaUnlessPresent, text, c);
    SubAllKeepsCount(SoRule(), p, c);
    var q := PausesAfter(Transitions, AlwaysComma, text);
    PausesAfterKeepsCount(Transitions, AlwaysComma, text, c);
    SubAllKeepsCount(SoRule(), q, c);
  }

  // ---------------------------------------------------------------- a phrase already followed by a comma

  /** Phrases that change nothing can be dropped. */
  lemma {:induction false} PausesAfterUnchanged(ws: seq<string>, m: CommaRule, t: string)
    requires forall j :: 0 <= j < |ws| ==> Sub(TransitionRule(ws[j], m), t) == t
    ensures PausesAfter(ws, m, t) == t
    decreases |ws|
  {
    if ws != [] {
      assert Sub(TransitionRule(ws[0], m), t) == t;
      assert forall j :: 0 <= j < |ws| - 1 ==> ws[1..][j] == ws[j + 1];
      PausesAfterUnchanged(ws[1..], m, t);
    }
  }

  /** A short text made of the letters of `however` (in any case) and commas. */
  predicate HoweverLetters(t: string) {
    |t| <= 9 && forall k :: 0 <= k < |t| ==> Lower(t[k]) in "howevr,"
  }

  /** No phrase but the first fits anywhere in such a text. */
  lemma LaterPhrasesMiss(t: string, m: CommaRule, j: nat)
    requires HoweverLetters(t) && 1 <= j < |Transitions|
    ensures Sub(TransitionRule(Transitions[j], m), t) == t
  {
    var w := Transitions[j];
    forall k | 0 <= k < |t| ensures !HitsAt(TransitionRule(w, m), t[k..]) {
      assert Lower(t[k..][0]) in "howevr,";
      assert Lower(t[k..][0]) != Lower(w[0]) || |w| > 9;
    }
    SubIdentity(TransitionRule(w, m), t);
  }

  /** Nor does the `So` rule, which needs a capital `S`. */
  lemma NoSoIn(t: string)
    requires HoweverLetters(t)
    ensures SubAll(SoRule(), t) == t
  {
    forall k | 0 <= k < |t| ensures !HitsAtIndex(SoRule(), t, k) {
      assert Lower(t[k]) in "howevr,";
      assert t[k] != 'S';
    }
    SubFromIdentity(SoRule(), t, 0);
  }

  /** `However,` in any case, the whole text. */
  predicate IsHoweverComma(s: string) {
    |s| == 8 && FoldsTo(s, 0, "However") && s[7] == ','
  }

  lemma HoweverCommaLetters(s: string)
    requires IsHoweverComma(s)
    ensures HoweverLetters(s)
  {
    forall k | 0 <= k < |s| ensures Lower(s[k]) in "howevr," {
      if k < 7 {
        assert Lower(s[0 + k]) == Lower("However"[k]);
      }
    }
  }

  lemma FirstPhraseAsWritten(s: string)
    requires IsHoweverComma(s)
    ensures Sub(TransitionRule(Transitions[0], AlwaysComma), s) == "However,,"
  {
    var f := TransitionRule(Transitions[0], AlwaysComma);
    assert Transitions[0] == "However";
    assert "However" + "," == "However,";
    assert f(s) == Some(Hit(7, "However,"));
    SubHit(f, s, 7, "However,");
    assert s[7..] == [','];
    assert Sub(f, s[7..]) == ",";
  }

  /** As written, `However,` reads `However,,`. */
  lemma SecondCommaAsWritten(s: string)
    requires IsHoweverComma(s)
    ensures ReadingPausesAsWritten(s) == "However,,"
  {
    var t := "However,,";
    FirstPhraseAsWritten(s);
    assert HoweverLetters(t);
    forall j | 0 <= j < |Transitions[1..]| ensures Sub(TransitionRule(Transitions[1..][j], AlwaysComma), t) == t {
      LaterPhrasesMiss(t, AlwaysComma, j + 1);
    }
    PausesAfterUnchanged(Transitions[1..], AlwaysComma, t);
    NoSoIn(t);
  }

  lemma FirstPhraseMissesAt(s: string, k: nat)
    requires IsHoweverComma(s) && k < |s|
    ensures TransitionAt("However", CommaUnlessPresent, s[k..]).None?
  {
    var t := s[k..];
    if k == 0 {
      assert t == s && CommaAfter(s, 7);
    } else if k < 7 {
      assert Lower(s[0 + k]) == Lower("However"[k]);
      assert Lower(t[0]) != Lower("However"[0]);
    } else {
      assert t[0] == ',';
    }
  }

  lemma FirstPhraseCorrected(s: string)
    requires IsHoweverComma(s)
    ensures Sub(TransitionRule(Transitions[0], CommaUnlessPresent), s) == s
  {
    var f := TransitionRule("However", CommaUnlessPresent);
    forall k | 0 <= k < |s| ensures !HitsAt(f, s[k..]) {
      FirstPhraseMissesAt(s, k);
    }
    SubIdentity(f, s);
    assert Transitions[0] == "However";
  }

  /** Corrected, `However,` is left as it is. */
  lemma NoSecondComma(s: string)
    requires IsHoweverComma(s)
    ensures ReadingPauses(s) == s
  {
    HoweverCommaLetters(s);
    FirstPhraseCorrected(s);
    forall j | 1 <= j < |Transitions| ensures Sub(TransitionRule(Transitions[j], CommaUnlessPresent), s) == s {
      LaterPhrasesMiss(s, CommaUnlessPresent, j);
    }
    PausesAfterUnchanged(Transitions, CommaUnlessPresent, s);
    NoSoIn(s);
  }
}
