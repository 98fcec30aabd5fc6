/**
 * `handle_age_gender_markers` and `handle_superscript_ordinals`: two single
 * `re.sub` calls whose replacement is computed by a callback.
 */
module FormatMarkers {
  import opened Wrappers
  import opened Text
  import opened Scan

  // ---------------------------------------------------------------- (19F) markers

  /** The class `[MFmfNBnb]`. */
  predicate IsGenderLetter(c: char) {
    c == 'M' || c == 'F' || c == 'm' || c == 'f' || c == 'N' || c == 'B' || c == 'n' || c == 'b'
  }

  /** `replace_marker`'s table, with its default, looked up with an upper-cased key. */
  function GenderPhrase(g: string): string {
    "year old " + (if |g| == 1 && g[0] == 'M' then "male"
    else if |g| == 1 && g[0] == 'F' then "female"
    else if |g| == 2 && g[0] == 'N' && g[1] == 'B' then "non-binary"
    else "person")
  }

  /** `\((\d+)([MFmfNBnb]+)\)` anchored at the start of `t`, with `replace_marker` as replacement. */
  function AgeMarkerAt(t: string): Option<Hit> {
    if |t| == 0 || t[0] != '(' then None
    else
      var d := RunFrom(t, 1, IsDigit);
      var g := RunFrom(t, 1 + d, IsGenderLetter);
      if d == 0 || g == 0 || 1 + d + g >= |t| || t[1 + d + g] != ')' then None
      else Some(Hit(d + g + 2, MarkerText(t[1..1 + d], t[1 + d..1 + d + g])))
  }

  /** `replace_marker`: the age, a space and the phrase for the upper-cased letters. */
  function MarkerText(age: string, g: string): string {
    age + " " + GenderPhrase(UpperStr(g))
  }

  function HandleAgeGenderMarkers(text: string): string {
    Sub(AgeMarkerAt, text)
  }

  /** `AgeMarkerAt` on a text whose digit run, letter run and closing parenthesis are known. */
  lemma AgeMarkerAtOf(t: string, d: nat, g: nat)
    requires 1 + d + g < |t| && t[0] == '(' && 0 < d && 0 < g
    requires RunFrom(t, 1, IsDigit) == d && RunFrom(t, 1 + d, IsGenderLetter) == g
    requires t[1 + d + g] == ')'
    ensures AgeMarkerAt(t) == Some(Hit(d + g + 2, MarkerText(t[1..1 + d], t[1 + d..1 + d + g])))
  {
  }

  /**
   * A text that starts with `(`, `d` digits, `g` gender letters and `)` has
   * that marker replaced by the digits, verbatim, a space and the phrase of
   * the upper-cased letters; the scan goes on after the `)`.
   */
  lemma MarkerRewritten(t: string, d: nat, g: nat)
    requires 0 < d && 0 < g && 1 + d + g < |t|
    requires t[0] == '(' && t[1 + d + g] == ')'
    requires AllDigits(t[1..1 + d])
    requires forall k :: 1 + d <= k < 1 + d + g ==> IsGenderLetter(t[k])
    ensures HandleAgeGenderMarkers(t)
         == MarkerText(t[1..1 + d], t[1 + d..1 + d + g]) + HandleAgeGenderMarkers(t[d + g + 2..])
  {
    forall k | 1 <= k < 1 + d ensures IsDigit(t[k]) {
      assert t[k] == t[1..1 + d][k - 1];
    }
    assert IsGenderLetter(t[1 + d]);
    RunFromOf(t, 1, d, IsDigit);
    RunFromOf(t, 1 + d, g, IsGenderLetter);
    AgeMarkerAtOf(t, d, g);
    SubHit(AgeMarkerAt, t, d + g + 2, MarkerText(t[1..1 + d], t[1 + d..1 + d + g]));
  }

  /** Text without an opening parenthesis is left unchanged. */
  lemma NoParenthesisUnchanged(text: string)
    requires '(' !in text
    ensures HandleAgeGenderMarkers(text) == text
  {
    forall k | 0 <= k < |text| ensures !HitsAt(AgeMarkerAt, text[k..]) {
      assert text[k..][0] == text[k];
    }
    SubIdentity(AgeMarkerAt, text);
  }

  /** The key is upper-cased first: `(7nb)` reads as non-binary. */
  lemma MarkerTextLowerCase()
    ensures MarkerText("7", "nb") == "7 year old non-binary"
  {
    assert UpperStr("nb") == "NB";
  }

  /** Letter strings other than M, F and NB are read as a person. */
  lemma MarkerTextOtherLetters()
    ensures MarkerText("25", "MF") == "25 year old person"
  {
    assert UpperStr("MF") == "MF";
  }

  // ---------------------------------------------------------------- 5^(th) ordinals

  /** `st|nd|rd|th` */
  predicate IsOrdinalSuffix(s: string) {
    |s| == 2 && ((s[0] == 's' && s[1] == 't') || (s[0] == 'n' && s[1] == 'd')
              || (s[0] == 'r' && s[1] == 'd') || (s[0] == 't' && s[1] == 'h'))
  }

  /** `replace_ordinal`: seven numbers have a word, every other one keeps its decimal and suffix. */
  function OrdinalWord(n: nat, suffix: string): string
    requires IsOrdinalSuffix(suffix)
  {
    if n == 1 then "first"
    else if n == 2 then "second"
    else if n == 3 then "third"
    else if n == 5 then "fifth"
    else if n == 8 then "eighth"
    else if n == 9 then "ninth"
    else if n == 12 then "twelfth"
    else NatToString(n) + suffix
  }

  /** The replacement is letters and digits only, so it never starts another ordinal or marker. */
  lemma OrdinalWordPlain(n: nat, suffix: string)
    requires IsOrdinalSuffix(suffix)
    ensures var w := OrdinalWord(n, suffix); forall k :: 0 <= k < |w| ==> IsAlnum(w[k])
  {
    if n !in {1, 2, 3, 5, 8, 9, 12} {
      var d := NatToString(n);
      assert forall k :: 0 <= k < |d| ==> IsDigit(d[k]);
    }
  }

  /**
   * `(\d+)\^\(?(st|nd|rd|th)\)?` anchored at the start of `t`. The optional
   * `(` is taken when present (the suffix must then follow it) and the
   * optional `)` is taken whenever it follows the suffix.
   */
  function OrdinalAt(t: string): Option<Hit> {
    var d := RunFrom(t, 0, IsDigit);
    if d == 0 || d >= |t| || t[d] != '^' then None
    else
      var p := if d + 1 < |t| && t[d + 1] == '(' then d + 2 else d + 1;
      if p + 2 > |t| || !IsOrdinalSuffix(t[p..p + 2]) then None
      else
        var close := if p + 2 < |t| && t[p + 2] == ')' then 1 else 0;
        RunFromMatches(t, 0, IsDigit);
        Some(OrdinalHit(t, d, p, close))
  }

  /** The match of `d` digits, suffix at `p` and `close` closing parentheses, and its replacement. */
  function OrdinalHit(t: string, d: nat, p: nat, close: nat): (h: Hit)
    requires d <= p && p + 2 + close <= |t| && AllDigits(t[..d]) && IsOrdinalSuffix(t[p..p + 2])
    ensures h.len == p + 2 + close
  {
    Hit(p + 2 + close, OrdinalWord(DigitsValue(t[..d]), t[p..p + 2]))
  }

  function HandleSuperscriptOrdinals(text: string): string {
    Sub(OrdinalAt, text)
  }

  /** `OrdinalAt` on a text whose digit run, caret, suffix and closing parenthesis are known. */
  lemma OrdinalAtOf(t: string, d: nat, p: nat, close: nat)
    requires RunFrom(t, 0, IsDigit) == d && AllDigits(t[..d])
    requires 0 < d && d + 1 <= p <= d + 2 && p + 2 + close <= |t|
    requires t[d] == '^' && (p == d + 2 <==> t[d + 1] == '(') && IsOrdinalSuffix(t[p..p + 2])
    requires close <= 1 && (close == 1 <==> p + 2 < |t| && t[p + 2] == ')')
    ensures OrdinalAt(t) == Some(OrdinalHit(t, d, p, close))
  {
  }

  /**
   * A text that starts with `d` digits, `^`, an optional `(` (present exactly
   * when `p == d + 2`), a suffix at `p` and possibly `)` (taken exactly when it
   * follows the suffix) has that ordinal replaced by its word; the scan goes on
   * after it.
   */
  lemma OrdinalRewritten(t: string, d: nat, p: nat, close: nat)
    requires 0 < d && d + 1 <= p <= d + 2 && p + 2 + close <= |t|
    requires AllDigits(t[..d]) && t[d] == '^' && (p == d + 2 <==> t[d + 1] == '(')
    requires IsOrdinalSuffix(t[p..p + 2])
    requires close <= 1 && (close == 1 <==> p + 2 < |t| && t[p + 2] == ')')
    ensures HandleSuperscriptOrdinals(t)
         == OrdinalWord(DigitsValue(t[..d]), t[p..p + 2]) + HandleSuperscriptOrdinals(t[p + 2 + close..])
  {
    forall k | 0 <= k < d ensures IsDigit(t[k]) {
      assert t[k] == t[..d][k];
    }
    RunFromOf(t, 0, d, IsDigit);
    OrdinalAtOf(t, d, p, close);
    SubHit(OrdinalAt, t, p + 2 + close, OrdinalWord(DigitsValue(t[..d]), t[p..p + 2]));
  }

  /** Text without a caret is left unchanged. */
  lemma NoCaretUnchanged(text: string)
    requires '^' !in text
    ensures HandleSuperscriptOrdinals(text) == text
  {
    forall k | 0 <= k < |text| ensures !HitsAt(OrdinalAt, text[k..]) {
      var t := text[k..];
      var d := RunFrom(t, 0, IsDigit);
      assert d < |t| ==> t[d] == text[k + d];
    }
    SubIdentity(OrdinalAt, text);
  }

  /** `int()` drops leading zeros, so 01 reads as first and 007 as 7th. */
  lemma OrdinalExamples()
    ensures OrdinalWord(DigitsValue("5"), "th") == "fifth"
    ensures OrdinalWord(DigitsValue("01"), "st") == "first"
    ensures OrdinalWord(DigitsValue("007"), "th") == "7th"
    ensures OrdinalWord(DigitsValue("21"), "st") == "21st"
  {
    assert DigitsValue("007") == 7 by {
      assert "007"[..2] == "00" && "00"[..1] == "0" && "0"[..0] == "";
    }
    assert DigitsValue("21") == 21 by {
      assert "21"[..1] == "2" && "2"[..0] == "";
    }
    assert NatToString(21) == "21";
  }
}
