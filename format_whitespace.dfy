/**
 * `clean_whitespace`: every run of whitespace becomes one space, every line is
 * stripped, runs of three or more newlines become two, and the result is
 * stripped. Because the first step already turns every newline into a space,
 * the later steps only strip.
 */
module FormatWhitespace {
  import opened Wrappers
  import opened Text
  import opened Scan

  /** `\s+` anchored at the start of `t`, replaced by one space. */
  function SpaceRunAt(t: string): Option<Hit> {
    var r := RunFrom(t, 0, IsSpace);
    if r == 0 then None else Some(Hit(r, " "))
  }

  function CollapseSpaces(text: string): string {
    Sub(SpaceRunAt, text)
  }

  /** `'\n'.join(line.strip() for line in text.split('\n'))` */
  function StripLines(text: string): string {
    var lines := SplitOn(text, '\n');
    Join(seq(|lines|, k requires 0 <= k < |lines| => Strip(lines[k])), "\n")
  }

  predicate IsNewline(c: char) { c == '\n' }

  /** `\n{3,}` anchored at the start of `t`, replaced by two newlines. */
  function NewlineRunAt(t: string): Option<Hit> {
    var r := RunFrom(t, 0, IsNewline);
    if r < 3 then None else Some(Hit(r, "\n\n"))
  }

  function CleanWhitespace(text: string): string {
    Strip(Sub(NewlineRunAt, StripLines(CollapseSpaces(text))))
  }

  /** Every whitespace character is a plain space and is not followed by another whitespace character. */
  predicate SingleSpaced(s: string) {
    forall k :: 0 <= k < |s| && IsSpace(s[k]) ==> s[k] == ' ' && (k + 1 == |s| || !IsSpace(s[k + 1]))
  }

  lemma SingleSpacedCons(c: char, rest: string)
    requires SingleSpaced(rest)
    requires IsSpace(c) ==> c == ' ' && (rest == "" || !IsSpace(rest[0]))
    ensures SingleSpaced([c] + rest)
  {
    var s := [c] + rest;
    forall k | 0 < k < |s| ensures s[k] == rest[k - 1] {
    }
  }

  /** A scan that starts on a non-whitespace character copies it. */
  lemma CollapseHead(s: string)
    requires s != "" && !IsSpace(s[0])
    ensures CollapseSpaces(s) != "" && CollapseSpaces(s)[0] == s[0]
  {
  }

  /** One collapse leaves a single-spaced text. */
  lemma {:induction false} CollapseSingleSpaced(s: string)
    ensures SingleSpaced(CollapseSpaces(s))
    decreases |s|
  {
    if s != "" {
      var r := RunFrom(s, 0, IsSpace);
      if r > 0 {
        var rest := s[r..];
        CollapseSingleSpaced(rest);
        if rest != "" {
          CollapseHead(rest);
        }
        SingleSpacedCons(' ', CollapseSpaces(rest));
      } else {
        CollapseSingleSpaced(s[1..]);
        SingleSpacedCons(s[0], CollapseSpaces(s[1..]));
      }
    }
  }

  /** A single-spaced text has no newline. */
  lemma SingleSpacedNoNewline(s: string)
    requires SingleSpaced(s)
    ensures '\n' !in s
  {
    forall k | 0 <= k < |s| ensures s[k] != '\n' {
      assert IsSpace(s[k]) ==> s[k] == ' ';
    }
  }

  /** A stretch of a single-spaced text is single-spaced. */
  lemma SingleSpacedSlice(s: string, a: nat, b: nat)
    requires SingleSpaced(s) && a <= b <= |s|
    ensures SingleSpaced(s[a..b])
  {
    var t := s[a..b];
    forall k | 0 <= k < |t| && IsSpace(t[k]) ensures t[k] == ' ' && (k + 1 == |t| || !IsSpace(t[k + 1])) {
      assert t[k] == s[a + k];
      assert k + 1 < |t| ==> t[k + 1] == s[a + k + 1];
    }
  }

  /** On a single-spaced text the line step and the newline rule only strip. */
  lemma LaterStepsOnlyStrip(s: string)
    requires SingleSpaced(s)
    ensures Strip(Sub(NewlineRunAt, StripLines(s))) == Strip(s)
  {
    SingleSpacedNoNewline(s);
    SplitOnAbsent(s, '\n');
    var t := Strip(s);
    var a, b := StripParts(s);
    forall k | 0 <= k < |t| ensures !HitsAt(NewlineRunAt, t[k..]) {
      assert t[k..][0] == s[a + k];
    }
    SubIdentity(NewlineRunAt, t);
    StripIdempotent(s);
  }

  /** `clean_whitespace` is one collapse followed by one strip. */
  lemma CleanWhitespaceShape(text: string)
    ensures CleanWhitespace(text) == Strip(CollapseSpaces(text))
  {
    CollapseSingleSpaced(text);
    LaterStepsOnlyStrip(CollapseSpaces(text));
  }

  /**
   * The result has no newline, no whitespace other than single spaces between
   * non-whitespace characters, and none at either end.
   */
  lemma CleanWhitespaceClean(text: string)
    ensures var r := CleanWhitespace(text); SingleSpaced(r) && Trimmed(r) && '\n' !in r
  {
    CleanWhitespaceShape(text);
    var c := CollapseSpaces(text);
    CollapseSingleSpaced(text);
    var a, b := StripParts(c);
    SingleSpacedSlice(c, a, b);
    SingleSpacedNoNewline(Strip(c));
  }

  /** Collapsing copies every non-whitespace character and keeps whether the next one is whitespace. */
  lemma {:induction false} WordsOfCollapse(s: string)
    ensures Words(CollapseSpaces(s)) == Words(s)
    decreases |s|
  {
    if s != "" {
      var r := RunFrom(s, 0, IsSpace);
      if r > 0 {
        RunFromMatches(s, 0, IsSpace);
        WordsLeadingSpace(s, r);
        WordsOfCollapse(s[r..]);
      } else {
        var rest := s[1..];
        WordsOfCollapse(rest);
        if rest != "" && !IsSpace(rest[0]) {
          CollapseHead(rest);
        } else if rest != "" {
          assert CollapseSpaces(rest) == " " + CollapseSpaces(rest[RunFrom(rest, 0, IsSpace)..]);
        }
        assert CollapseSpaces(s) == [s[0]] + CollapseSpaces(rest);
      }
    }
  }

  /** `clean_whitespace` changes whitespace only: the words are the words of the input. */
  lemma WordsOfCleanWhitespace(text: string)
    ensures Words(CleanWhitespace(text)) == Words(text)
  {
    CleanWhitespaceShape(text);
    WordsOfStrip(CollapseSpaces(text));
    WordsOfCollapse(text);
  }

  /** On a single-spaced text every match is a lone space replaced by a space. */
  lemma CollapseSingleSpacedUnchanged(s: string)
    requires SingleSpaced(s)
    ensures CollapseSpaces(s) == s
  {
    forall k | 0 <= k < |s| ensures KeepsAt(SpaceRunAt, s[k..]) {
      var t := s[k..];
      if IsSpace(t[0]) {
        assert t[0] == s[k];
        assert |t| > 1 ==> t[1] == s[k + 1];
        assert RunFrom(t, 0, IsSpace) == 1;
      }
    }
    SubKeeps(SpaceRunAt, s);
  }

  /** The fixed points of `clean_whitespace` are exactly the single-spaced, stripped texts. */
  lemma CleanWhitespaceFixedPoints(text: string)
    ensures CleanWhitespace(text) == text <==> SingleSpaced(text) && Trimmed(text)
  {
    CleanWhitespaceClean(text);
    if SingleSpaced(text) && Trimmed(text) {
      CleanWhitespaceShape(text);
      CollapseSingleSpacedUnchanged(text);
      StripTrimmed(text);
    }
  }

  lemma CleanWhitespaceIdempotent(text: string)
    ensures CleanWhitespace(CleanWhitespace(text)) == CleanWhitespace(text)
  {
    CleanWhitespaceClean(text);
    CleanWhitespaceFixedPoints(CleanWhitespace(text));
  }
}
