/**
 * `handle_profanity_censoring`: seven patterns `\b<word>\b`, matched ignoring
 * case, each replaced by a spoken form, one `re.sub` after the other in the
 * table's order.
 *
 * Three of the words end in `*`. A `\b` after a `*` needs a word character
 * next, so as written `f***`, `s***` and `a**` are replaced only when more of
 * a word follows (`f***ing` becomes `f wording`) and never on their own, and
 * the `f***ing` and `f***ed` entries never see a match. The corrected table
 * ends every word with "no word character follows", which leaves the
 * letter-final entries as they were.
 */
module FormatProfanity {
  import opened Wrappers
  import opened Text
  import opened Scan

  /** One entry: the censored word as it is spelt and its spoken replacement. */
  datatype Censor = Censor(pat: string, repl: string)

  /** The table, in its order of application. */
  const Censors: seq<Censor> := [
    Censor("f***", "f word"),
    Censor("f***ing", "f-ing"),
    Censor("f***ed", "f-ed"),
    Censor("s***", "s word"),
    Censor("a**hole", "a-hole"),
    Censor("a**", "a word"),
    Censor("AH", "asshole")
  ]

  /** How the end of a word is recognised: Python's `\b`, or the corrected "no word character follows". */
  datatype Ending = AsWritten | WordEnd

  predicate EndOk(e: Ending, s: string, j: nat) {
    match e
    case AsWritten => Boundary(s, j)
    case WordEnd => !WordAt(s, j)
  }

  /** One entry's pattern at position `i` of `s`. */
  function CensorAt(c: Censor, e: Ending, s: string, i: nat): Option<Hit> {
    if c.pat != "" && Boundary(s, i) && FoldsTo(s, i, c.pat) && EndOk(e, s, i + |c.pat|)
    then Some(Hit(|c.pat|, c.repl))
    else None
  }

  function CensorRule(c: Censor, e: Ending): RuleAt {
    (s: string, i: nat) => CensorAt(c, e, s, i)
  }

  /** The entries of `cs` applied one after the other. */
  function Censored(cs: seq<Censor>, e: Ending, text: string): string
    decreases |cs|
  {
    if cs == [] then text else Censored(cs[1..], e, SubAll(CensorRule(cs[0], e), text))
  }

  /** `handle_profanity_censoring` as written. */
  function HandleProfanityAsWritten(text: string): string {
    Censored(Censors, AsWritten, text)
  }

  /** `handle_profanity_censoring` with every word required to end where its pattern ends. */
  function HandleProfanity(text: string): string {
    Censored(Censors, WordEnd, text)
  }

  /** The loop of `handle_profanity_censoring`, with the program's `\b` ending. */
  method CensorProfanity(text: string) returns (r: string)
    ensures r == HandleProfanityAsWritten(text)
  {
    r := text;
    assert Censors[0..] == Censors;
    for i := 0 to |Censors|
      invariant Censored(Censors[i..], AsWritten, r) == HandleProfanityAsWritten(text)
    {
      var entry := Censors[i];
      assert Censors[i..][1..] == Censors[i + 1..];
      r := SubAll(CensorRule(entry, AsWritten), r);
    }
    assert Censors[|Censors|..] == [];
  }

  // ---------------------------------------------------------------- one position

  /**
   * As written, a word ending in `*` is replaced only when a word character
   * follows it: on its own, at the end of the text or before a space or a
   * punctuation mark, it is left as it is.
   */
  lemma AsWrittenMissesWholeWord(c: Censor, s: string, i: nat)
    requires c.pat != "" && c.pat[|c.pat| - 1] == '*'
    requires !WordAt(s, i + |c.pat|)
    ensures CensorAt(c, AsWritten, s, i) == None
  {
    var j := i + |c.pat|;
    if FoldsTo(s, i, c.pat) {
      FoldsToWordChars(s, i, c.pat, |c.pat| - 1);
      assert !WordBefore(s, j);
    }
  }

  /** As written, a word ending in `*` followed by more letters is replaced on its own, cutting the longer word. */
  lemma AsWrittenCutsLongerWord(c: Censor, s: string, i: nat)
    requires c.pat != "" && c.pat[|c.pat| - 1] == '*'
    requires Boundary(s, i) && FoldsTo(s, i, c.pat) && WordAt(s, i + |c.pat|)
    ensures CensorAt(c, AsWritten, s, i) == Some(Hit(|c.pat|, c.repl))
    ensures CensorAt(c, WordEnd, s, i) == None
  {
    FoldsToWordChars(s, i, c.pat, |c.pat| - 1);
  }

  /** Corrected, a whole word ending in `*` is replaced. */
  lemma WordEndMatchesWholeWord(c: Censor, s: string, i: nat)
    requires c.pat != "" && Boundary(s, i) && FoldsTo(s, i, c.pat) && !WordAt(s, i + |c.pat|)
    ensures CensorAt(c, WordEnd, s, i) == Some(Hit(|c.pat|, c.repl))
  {
  }

  /** For a word ending in a letter the two endings are the same test. */
  lemma EndingsAgreeOnLetters(c: Censor, s: string, i: nat)
    requires c.pat != "" && IsWordChar(c.pat[|c.pat| - 1])
    ensures CensorAt(c, AsWritten, s, i) == CensorAt(c, WordEnd, s, i)
  {
    if FoldsTo(s, i, c.pat) {
      FoldsToWordChars(s, i, c.pat, |c.pat| - 1);
      assert WordBefore(s, i + |c.pat|);
    }
  }

  /** `f***` is how `f***ing` and `f***ed` begin. */
  lemma FoldsToPrefix(s: string, i: nat, pat: string, n: nat)
    requires FoldsTo(s, i, pat) && n <= |pat|
    ensures FoldsTo(s, i, pat[..n])
  {
  }

  /**
   * As written, wherever the `f***ing` or the `f***ed` entry matches, the
   * `f***` entry matches at the same place, and it runs first.
   */
  lemma AsWrittenShadowed(s: string, i: nat)
    ensures CensorAt(Censors[1], AsWritten, s, i).Some? ==> CensorAt(Censors[0], AsWritten, s, i).Some?
    ensures CensorAt(Censors[2], AsWritten, s, i).Some? ==> CensorAt(Censors[0], AsWritten, s, i).Some?
  {
    assert Censors[0].pat == "f***" && Censors[1].pat == "f***ing" && Censors[2].pat == "f***ed";
    if CensorAt(Censors[1], AsWritten, s, i).Some? {
      ShadowedAt(s, i, "f***ing");
    }
    if CensorAt(Censors[2], AsWritten, s, i).Some? {
      ShadowedAt(s, i, "f***ed");
    }
  }

  lemma ShadowedAt(s: string, i: nat, longer: string)
    requires |longer| > 4 && longer[..4] == "f***" && IsAlpha(longer[4])
    requires Boundary(s, i) && FoldsTo(s, i, longer)
    ensures CensorAt(Censor("f***", "f word"), AsWritten, s, i).Some?
  {
    FoldsToPrefix(s, i, longer, 4);
    FoldsToWordChars(s, i, longer, 3);
    FoldsToWordChars(s, i, longer, 4);
  }

  /** Corrected, the `f***` entry and the `f***ing` entry never match at the same place. */
  lemma WordEndSeparates(s: string, i: nat)
    ensures !(CensorAt(Censors[0], WordEnd, s, i).Some? && CensorAt(Censors[1], WordEnd, s, i).Some?)
    ensures !(CensorAt(Censors[0], WordEnd, s, i).Some? && CensorAt(Censors[2], WordEnd, s, i).Some?)
  {
    assert Censors[0].pat == "f***" && Censors[1].pat == "f***ing" && Censors[2].pat == "f***ed";
    if CensorAt(Censors[1], WordEnd, s, i).Some? {
      FoldsToWordChars(s, i, "f***ing", 4);
    }
    if CensorAt(Censors[2], WordEnd, s, i).Some? {
      FoldsToWordChars(s, i, "f***ed", 4);
    }
  }

  /**
   * The `AH` entry ignores case like the others, so the word `ah` or `Ah`
   * reads `asshole` too, with either ending.
   */
  lemma AhCensoredInAnyCase(s: string, i: nat, e: Ending)
    requires i + 2 <= |s| && Lower(s[i]) == 'a' && Lower(s[i + 1]) == 'h'
    requires Boundary(s, i) && !WordAt(s, i + 2)
    ensures CensorAt(Censors[6], e, s, i) == Some(Hit(2, "asshole"))
  {
    assert Censors[6].pat == "AH";
    assert FoldsTo(s, i, "AH");
    assert IsWordChar(s[i + 1]) by {
      assert IsUpper(s[i + 1]) || s[i + 1] == 'h';
    }
  }

  // ---------------------------------------------------------------- whole texts

  /** An entry that matches nowhere leaves the text unchanged. */
  lemma NoHitUnchanged(c: Censor, e: Ending, s: string)
    requires forall i :: 0 <= i < |s| ==> CensorAt(c, e, s, i) == None
    ensures SubAll(CensorRule(c, e), s) == s
  {
    var g := CensorRule(c, e);
    forall k | 0 <= k < |s| ensures !HitsAtIndex(g, s, k) {
      assert g(s, k) == CensorAt(c, e, s, k);
    }
    SubFromIdentity(g, s, 0);
  }

  /** An entry whose word holds a non-letter that the text lacks leaves the text unchanged. */
  lemma AbsentCharUnchanged(c: Censor, e: Ending, s: string, k: nat)
    requires k < |c.pat| && !IsAlpha(c.pat[k]) && c.pat[k] !in s
    ensures SubAll(CensorRule(c, e), s) == s
  {
    forall i | 0 <= i < |s| ensures CensorAt(c, e, s, i) == None {
      if i + |c.pat| <= |s| {
        assert Lower(s[i + k]) != Lower(c.pat[k]) by {
          assert s[i + k] != c.pat[k];
        }
      }
    }
    NoHitUnchanged(c, e, s);
  }

  /** Entries that leave the text unchanged can be dropped from the front of the table. */
  lemma {:induction false} CensoredSkip(cs: seq<Censor>, e: Ending, s: string, n: nat)
    requires n <= |cs|
    requires forall j :: 0 <= j < n ==> SubAll(CensorRule(cs[j], e), s) == s
    ensures Censored(cs, e, s) == Censored(cs[n..], e, s)
    decreases n
  {
    if n > 0 {
      assert SubAll(CensorRule(cs[0], e), s) == s;
      CensoredSkip(cs[1..], e, s, n - 1);
      assert cs[1..][n - 1..] == cs[n..];
    }
  }

  /** The words with stars: every one holds `*` right after its first letter. */
  lemma StarredEntries()
    ensures forall j :: 0 <= j < 6 ==> 1 < |Censors[j].pat| && Censors[j].pat[1] == '*'
    ensures Censors[6..] == [Censor("AH", "asshole")]
  {
  }

  /** A text without `*` is changed only by the `AH` entry. */
  lemma NoStarOnlyAh(s: string, e: Ending)
    requires '*' !in s
    ensures Censored(Censors, e, s) == SubAll(CensorRule(Censor("AH", "asshole"), e), s)
  {
    StarredEntries();
    forall j | 0 <= j < 6 ensures SubAll(CensorRule(Censors[j], e), s) == s {
      AbsentCharUnchanged(Censors[j], e, s, 1);
    }
    CensoredSkip(Censors, e, s, 6);
  }

  /** An entry whose first letter, ignoring case, is nowhere in the text leaves it unchanged. */
  lemma AbsentLetterUnchanged(c: Censor, e: Ending, s: string)
    requires c.pat != "" && forall j :: 0 <= j < |s| ==> Lower(s[j]) != Lower(c.pat[0])
    ensures SubAll(CensorRule(c, e), s) == s
  {
    forall i | 0 <= i < |s| ensures CensorAt(c, e, s, i) == None {
      assert Lower(s[i + 0]) != Lower(c.pat[0]);
    }
    NoHitUnchanged(c, e, s);
  }

  /** An entry that fits at no position leaves the text unchanged. */
  lemma NoFoldUnchanged(c: Censor, e: Ending, s: string)
    requires forall i :: 0 <= i < |s| ==> !FoldsTo(s, i, c.pat)
    ensures SubAll(CensorRule(c, e), s) == s
  {
    NoHitUnchanged(c, e, s);
  }

  /** A text that is `f***` in any case, letter by letter. */
  predicate IsFStars(s: string) {
    |s| == 4 && Lower(s[0]) == 'f' && s[1] == '*' && s[2] == '*' && s[3] == '*'
  }

  lemma FStarsFolds(s: string)
    requires IsFStars(s)
    ensures FoldsTo(s, 0, "f***") && WordAt(s, 0) && !WordAt(s, 4) && Boundary(s, 0)
  {
    assert IsWordChar(s[0]) by {
      assert IsUpper(s[0]) || s[0] == 'f';
    }
  }

  lemma FirstEntryAsWrittenOnFStars(s: string)
    requires IsFStars(s)
    ensures SubAll(CensorRule(Censors[0], AsWritten), s) == s
  {
    FStarsFolds(s);
    assert Censors[0].pat == "f***" && Censors[0].pat[|Censors[0].pat| - 1] == '*';
    forall i | 0 <= i < |s| ensures CensorAt(Censors[0], AsWritten, s, i) == None {
      if i == 0 {
        AsWrittenMissesWholeWord(Censors[0], s, 0);
      }
    }
    NoHitUnchanged(Censors[0], AsWritten, s);
  }

  lemma LaterEntriesOnFStars(s: string, e: Ending, j: nat)
    requires IsFStars(s) && 1 <= j < 7
    ensures SubAll(CensorRule(Censors[j], e), s) == s
  {
    forall i | 0 <= i < |s| ensures !FoldsTo(s, i, Censors[j].pat) {
      assert Lower(s[i + 0]) != Lower(Censors[j].pat[0]) || i + |Censors[j].pat| > |s|;
    }
    NoFoldUnchanged(Censors[j], e, s);
  }

  /** As written, the text `f***` is not censored: no entry matches it. */
  lemma WholeWordAsWritten(s: string)
    requires IsFStars(s)
    ensures HandleProfanityAsWritten(s) == s
  {
    FirstEntryAsWrittenOnFStars(s);
    forall j | 1 <= j < 7 ensures SubAll(CensorRule(Censors[j], AsWritten), s) == s {
      LaterEntriesOnFStars(s, AsWritten, j);
    }
    CensoredSkip(Censors, AsWritten, s, 7);
  }

  lemma FirstEntryOnFStars(s: string)
    requires IsFStars(s)
    ensures SubAll(CensorRule(Censors[0], WordEnd), s) == "f word"
  {
    FStarsFolds(s);
    var g := CensorRule(Censors[0], WordEnd);
    WordEndMatchesWholeWord(Censors[0], s, 0);
    assert HitsAtIndex(g, s, 0);
    assert SubFrom(g, s, 0) == "f word" + SubFrom(g, s, 4);
  }

  /** No later entry changes `f word`. */
  lemma LaterEntriesKeepFWord()
    ensures Censored(Censors[1..], WordEnd, "f word") == "f word"
  {
    var t := "f word";
    StarredEntries();
    forall j | 1 <= j < 6 ensures SubAll(CensorRule(Censors[j], WordEnd), t) == t {
      AbsentCharUnchanged(Censors[j], WordEnd, t, 1);
    }
    AbsentLetterUnchanged(Censors[6], WordEnd, t);
    CensoredSkip(Censors[1..], WordEnd, t, 6);
  }

  /** Corrected, the text `f***` reads `f word`. */
  lemma WholeWord(s: string)
    requires IsFStars(s)
    ensures HandleProfanity(s) == "f word"
  {
    FirstEntryOnFStars(s);
    LaterEntriesKeepFWord();
  }
}
