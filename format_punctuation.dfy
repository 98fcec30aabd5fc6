/**
 * `normalize_punctuation`: runs of `!` and of `?` become one mark, runs of
 * four or more `.` become an ellipsis, whitespace before `.,!?;:` is dropped,
 * a mark and a following letter are set one space apart, and finally the text
 * is cut at every `.`, each piece is stripped and, when it has more than three
 * words and does not end in `!` or `?`, given back a period; the pieces are
 * joined with spaces and the result is stripped.
 */
module FormatPunctuation {
  import opened Wrappers
  import opened Text
  import opened Scan

  predicate IsBang(c: char) { c == '!' }
  predicate IsQuestion(c: char) { c == '?' }
  predicate IsDot(c: char) { c == '.' }

  /** The class `[.,!?;:]`. */
  predicate IsPunct(c: char) { c == '.' || c == ',' || c == '!' || c == '?' || c == ';' || c == ':' }

  // ---------------------------------------------------------------- runs of one mark

  /** `c{n,}` anchored at the start of `t` (greedy, so the whole run), replaced by `rep`. */
  function RunAt(p: char -> bool, n: nat, rep: string, t: string): Option<Hit> {
    var r := RunFrom(t, 0, p);
    if r < n then None else Some(Hit(r, rep))
  }

  function RunRule(p: char -> bool, n: nat, rep: string): Rule {
    (t: string) => RunAt(p, n, rep, t)
  }

  /** `re.sub(r'!{2,}', '!', text)` */
  function CollapseBangs(text: string): string { Sub(RunRule(IsBang, 2, "!"), text) }
  /** `re.sub(r'\?{2,}', '?', text)` */
  function CollapseQuestions(text: string): string { Sub(RunRule(IsQuestion, 2, "?"), text) }
  /** `re.sub(r'\.{4,}', '...', text)` */
  function CollapseDots(text: string): string { Sub(RunRule(IsDot, 4, "..."), text) }

  /** No run of characters satisfying `p` is `n` long. */
  predicate RunsBelow(s: string, p: char -> bool, n: nat) {
    forall i :: 0 <= i <= |s| ==> RunFrom(s, i, p) < n
  }

  /** A replacement made of matching characters, shorter than the runs it replaces. */
  predicate ShortRep(p: char -> bool, n: nat, rep: string) {
    0 < |rep| < n && forall k :: 0 <= k < |rep| ==> p(rep[k])
  }

  /** The run at the start of the output is the input's run, or the replacement when the run was long enough. */
  lemma {:induction false} LeadRunOfCollapse(p: char -> bool, n: nat, rep: string, s: string)
    requires ShortRep(p, n, rep)
    ensures RunFrom(Sub(RunRule(p, n, rep), s), 0, p) == if RunFrom(s, 0, p) >= n then |rep| else RunFrom(s, 0, p)
    decreases |s|
  {
    var f := RunRule(p, n, rep);
    if s != "" {
      var r := RunFrom(s, 0, p);
      if r >= n {
        var rest := s[r..];
        RunFromShift(s, r, 0, p);
        LeadRunOfCollapse(p, n, rep, rest);
        RunFromAppend(rep, Sub(f, rest), p);
      } else {
        RunFromCons(s[0], Sub(f, s[1..]), p);
        if p(s[0]) {
          RunFromShift(s, 1, 0, p);
          LeadRunOfCollapse(p, n, rep, s[1..]);
        }
      }
    }
  }

  lemma RunsBelowRep(rep: string, rest: string, p: char -> bool, n: nat)
    requires ShortRep(p, n, rep) && RunsBelow(rest, p, n) && RunFrom(rest, 0, p) == 0
    ensures RunsBelow(rep + rest, p, n)
  {
    var s := rep + rest;
    forall i | 0 <= i <= |s| ensures RunFrom(s, i, p) < n {
      if i < |rep| {
        RunFromShift(s, i, 0, p);
        assert s[i..] == rep[i..] + rest;
        RunFromAppend(rep[i..], rest, p);
      } else {
        RunFromShift(s, |rep|, i - |rep|, p);
        assert s[|rep|..] == rest;
      }
    }
  }

  lemma RunsBelowCons(c: char, rest: string, p: char -> bool, n: nat)
    requires RunsBelow(rest, p, n) && RunFrom([c] + rest, 0, p) < n
    ensures RunsBelow([c] + rest, p, n)
  {
    var s := [c] + rest;
    forall i | 0 < i <= |s| ensures RunFrom(s, i, p) < n {
      RunFromShift(s, 1, i - 1, p);
      assert s[1..] == rest;
    }
  }

  /** After the collapse no run of the mark is `n` long. */
  lemma {:induction false} RunsOfCollapse(p: char -> bool, n: nat, rep: string, s: string)
    requires ShortRep(p, n, rep)
    ensures RunsBelow(Sub(RunRule(p, n, rep), s), p, n)
    decreases |s|
  {
    var f := RunRule(p, n, rep);
    if s == "" {
      assert RunFrom("", 0, p) == 0;
    } else {
      var r := RunFrom(s, 0, p);
      if r >= n {
        var rest := s[r..];
        RunsOfCollapse(p, n, rep, rest);
        RunFromShift(s, r, 0, p);
        LeadRunOfCollapse(p, n, rep, rest);
        RunsBelowRep(rep, Sub(f, rest), p, n);
      } else {
        RunsOfCollapse(p, n, rep, s[1..]);
        LeadRunOfCollapse(p, n, rep, s);
        RunsBelowCons(s[0], Sub(f, s[1..]), p, n);
      }
    }
  }

  /** Without a run of length `n`, no `n` matching characters in a row occur. */
  lemma NoLongRunAbsent(s: string, p: char -> bool, n: nat, x: string)
    requires RunsBelow(s, p, n) && |x| == n && forall k :: 0 <= k < |x| ==> p(x[k])
    ensures Absent(s, x)
  {
    forall i | 0 <= i <= |s| ensures !OccursAt(s, x, i) {
      if OccursAt(s, x, i) {
        forall k | i <= k < i + n ensures p(s[k]) {
          assert s[k] == s[i..i + n][k - i];
        }
        RunFromSkip(s, i, n, p);
      }
    }
  }

  /** A replacement that shares no character with `x` never makes one. */
  lemma RunRuleAvoids(p: char -> bool, n: nat, rep: string, x: string)
    requires rep != "" && Disjoint(rep, x)
    ensures RepsAvoid(RunRule(p, n, rep), x)
  {
  }

  /** After lines 224-230 the text has no `!!`, no `??` and no `....`. */
  lemma CollapsedMarks(text: string)
    ensures var t := CollapseDots(CollapseQuestions(CollapseBangs(text)));
            Absent(t, "!!") && Absent(t, "??") && Absent(t, "....")
  {
    var t1 := CollapseBangs(text);
    var t2 := CollapseQuestions(t1);
    var t3 := CollapseDots(t2);
    RunsOfCollapse(IsBang, 2, "!", text);
    NoLongRunAbsent(t1, IsBang, 2, "!!");
    RunRuleAvoids(IsQuestion, 2, "?", "!!");
    SubKeepsAbsent(RunRule(IsQuestion, 2, "?"), t1, "!!");
    RunsOfCollapse(IsQuestion, 2, "?", t1);
    NoLongRunAbsent(t2, IsQuestion, 2, "??");
    RunRuleAvoids(IsDot, 4, "...", "!!");
    SubKeepsAbsent(RunRule(IsDot, 4, "..."), t2, "!!");
    RunRuleAvoids(IsDot, 4, "...", "??");
    SubKeepsAbsent(RunRule(IsDot, 4, "..."), t2, "??");
    RunsOfCollapse(IsDot, 4, "...", t2);
    NoLongRunAbsent(t3, IsDot, 4, "....");
  }

  // ---------------------------------------------------------------- spacing around marks

  /** `\s+([.,!?;:])` anchored at the start of `t`, replaced by the mark. */
  function SpaceBeforeMarkAt(t: string): Option<Hit> {
    var w := RunFrom(t, 0, IsSpace);
    if w == 0 || w == |t| || !IsPunct(t[w]) then None else Some(Hit(w + 1, [t[w]]))
  }

  /** `([.,!?;:])\s*([a-zA-Z])` anchored at the start of `t`, replaced by the mark, a space and the letter. */
  function MarkLetterAt(t: string): Option<Hit> {
    if |t| == 0 || !IsPunct(t[0]) then None
    else
      var w := RunFrom(t, 1, IsSpace);
      if 1 + w == |t| || !IsAlpha(t[1 + w]) then None else Some(Hit(2 + w, [t[0], ' ', t[1 + w]]))
  }

  function DropSpaceBeforeMarks(text: string): string { Sub(SpaceBeforeMarkAt, text) }
  function SpaceMarksFromLetters(text: string): string { Sub(MarkLetterAt, text) }

  /** No whitespace character is directly followed by a mark. */
  predicate NoSpaceBeforeMark(s: string) {
    forall k :: 0 <= k < |s| - 1 && IsSpace(s[k]) ==> !IsPunct(s[k + 1])
  }

  /** No mark is directly followed by a letter. */
  predicate NoMarkBeforeLetter(s: string) {
    forall k :: 0 <= k < |s| - 1 && IsPunct(s[k]) ==> !IsAlpha(s[k + 1])
  }

  lemma NoSpaceBeforeMarkCons(c: char, rest: string)
    requires NoSpaceBeforeMark(rest)
    requires IsSpace(c) && rest != "" ==> !IsPunct(rest[0])
    ensures NoSpaceBeforeMark([c] + rest)
  {
    var s := [c] + rest;
    forall k | 0 < k < |s| ensures s[k] == rest[k - 1] {
    }
  }

  lemma NoMarkBeforeLetterCons(c: char, rest: string)
    requires NoMarkBeforeLetter(rest)
    requires IsPunct(c) && rest != "" ==> !IsAlpha(rest[0])
    ensures NoMarkBeforeLetter([c] + rest)
  {
    var s := [c] + rest;
    forall k | 0 < k < |s| ensures s[k] == rest[k - 1] {
    }
  }

  /** Where no whitespace run ends in a mark, the first character is copied. */
  lemma DropSpaceHead(s: string)
    requires s != "" && !HitsAt(SpaceBeforeMarkAt, s)
    ensures DropSpaceBeforeMarks(s)[0] == s[0]
  {
  }

  /** A whitespace character that is copied is followed by whitespace or by a character that is not a mark. */
  lemma DropSpaceNext(s: string)
    requires |s| > 1 && IsSpace(s[0]) && !HitsAt(SpaceBeforeMarkAt, s)
    ensures !IsPunct(DropSpaceBeforeMarks(s[1..])[0])
  {
    var t := s[1..];
    var w := RunFrom(s, 0, IsSpace);
    RunFromShift(s, 1, 0, p := IsSpace);
    if IsSpace(t[0]) {
      assert t[w - 1..] == s[w..];
      assert !HitsAt(SpaceBeforeMarkAt, t);
    }
    DropSpaceHead(t);
  }

  /** After line 233 no whitespace is directly followed by a mark. */
  lemma {:induction false} DropSpaceBeforeMarksSound(s: string)
    ensures NoSpaceBeforeMark(DropSpaceBeforeMarks(s))
    decreases |s|
  {
    if s != "" {
      if HitsAt(SpaceBeforeMarkAt, s) {
        var w := RunFrom(s, 0, IsSpace);
        DropSpaceBeforeMarksSound(s[w + 1..]);
        NoSpaceBeforeMarkCons(s[w], DropSpaceBeforeMarks(s[w + 1..]));
      } else {
        DropSpaceBeforeMarksSound(s[1..]);
        if IsSpace(s[0]) && |s| > 1 {
          DropSpaceNext(s);
        }
        NoSpaceBeforeMarkCons(s[0], DropSpaceBeforeMarks(s[1..]));
      }
    }
  }

  /** Line 234 always emits the character it is at first: the mark of a match, or the copied character. */
  lemma MarkLetterHead(s: string)
    requires s != ""
    ensures SpaceMarksFromLetters(s)[0] == s[0]
  {
  }

  /** A match of line 234 at the start: the mark, whitespace of length `w`, a letter; the output starts with the mark, a space and the letter. */
  lemma MarkLetterHit(s: string) returns (w: nat)
    requires HitsAt(MarkLetterAt, s)
    ensures 2 + w <= |s| && IsPunct(s[0]) && IsAlpha(s[1 + w])
    ensures SpaceMarksFromLetters(s) == [s[0]] + ([' '] + ([s[1 + w]] + SpaceMarksFromLetters(s[2 + w..])))
  {
    w := RunFrom(s, 1, IsSpace);
  }

  /** After line 234 no mark is directly followed by a letter. */
  lemma {:induction false} MarkLetterSound(s: string)
    ensures NoMarkBeforeLetter(SpaceMarksFromLetters(s))
    decreases |s|
  {
    if s != "" {
      if HitsAt(MarkLetterAt, s) {
        var w := MarkLetterHit(s);
        var rest := SpaceMarksFromLetters(s[2 + w..]);
        MarkLetterSound(s[2 + w..]);
        NoMarkBeforeLetterCons(s[1 + w], rest);
        NoMarkBeforeLetterCons(' ', [s[1 + w]] + rest);
        NoMarkBeforeLetterCons(s[0], [' '] + ([s[1 + w]] + rest));
      } else {
        MarkLetterSound(s[1..]);
        if |s| > 1 {
          MarkLetterHead(s[1..]);
        }
        NoMarkBeforeLetterCons(s[0], SpaceMarksFromLetters(s[1..]));
      }
    }
  }

  lemma NoSpaceBeforeMarkSuffix(s: string, n: nat)
    requires NoSpaceBeforeMark(s) && n <= |s|
    ensures NoSpaceBeforeMark(s[n..])
  {
    var t := s[n..];
    forall k | 0 <= k < |t| - 1 && IsSpace(t[k]) ensures !IsPunct(t[k + 1]) {
      assert t[k] == s[n + k] && t[k + 1] == s[n + k + 1];
    }
  }

  /** Line 234 keeps what line 233 established. */
  lemma {:induction false} MarkLetterKeepsSpacing(s: string)
    requires NoSpaceBeforeMark(s)
    ensures NoSpaceBeforeMark(SpaceMarksFromLetters(s))
    decreases |s|
  {
    if s != "" {
      if HitsAt(MarkLetterAt, s) {
        var w := MarkLetterHit(s);
        var rest := SpaceMarksFromLetters(s[2 + w..]);
        NoSpaceBeforeMarkSuffix(s, 2 + w);
        MarkLetterKeepsSpacing(s[2 + w..]);
        NoSpaceBeforeMarkCons(s[1 + w], rest);
        NoSpaceBeforeMarkCons(' ', [s[1 + w]] + rest);
        NoSpaceBeforeMarkCons(s[0], [' '] + ([s[1 + w]] + rest));
      } else {
        NoSpaceBeforeMarkSuffix(s, 1);
        MarkLetterKeepsSpacing(s[1..]);
        if |s| > 1 {
          MarkLetterHead(s[1..]);
        }
        NoSpaceBeforeMarkCons(s[0], SpaceMarksFromLetters(s[1..]));
      }
    }
  }

  /** The five substitutions of lines 224-234, in order. */
  function MarksNormalized(text: string): string {
    SpaceMarksFromLetters(DropSpaceBeforeMarks(CollapseDots(CollapseQuestions(CollapseBangs(text)))))
  }

  /** After line 234 no whitespace precedes a mark and every mark is kept apart from a following letter. */
  lemma MarksNormalizedSpacing(text: string)
    ensures NoSpaceBeforeMark(MarksNormalized(text)) && NoMarkBeforeLetter(MarksNormalized(text))
  {
    var t := DropSpaceBeforeMarks(CollapseDots(CollapseQuestions(CollapseBangs(text))));
    DropSpaceBeforeMarksSound(CollapseDots(CollapseQuestions(CollapseBangs(text))));
    MarkLetterKeepsSpacing(t);
    MarkLetterSound(t);
  }

  // ---------------------------------------------------------------- sentence periods

  /** A stripped piece that gets a period: non-empty, not ending in `!` or `?`, more than three words. */
  predicate GetsPeriod(sentence: string) {
    sentence != "" && sentence[|sentence| - 1] != '!' && sentence[|sentence| - 1] != '?' && |Words(sentence)| > 3
  }

  /** One iteration of the loop at lines 239-244. */
  function FixSentence(piece: string): string {
    var sentence := Strip(piece);
    if GetsPeriod(sentence) then sentence + "." else sentence
  }

  function FixSentences(pieces: seq<string>): (r: seq<string>)
    ensures |r| == |pieces|
    ensures forall k :: 0 <= k < |pieces| ==> r[k] == FixSentence(pieces[k])
  {
    if pieces == [] then [] else [FixSentence(pieces[0])] + FixSentences(pieces[1..])
  }

  /** Lines 237-246: cut at every `.`, fix each piece, join with spaces, strip. */
  method AddSentencePeriods(text: string) returns (r: string)
    ensures r == Strip(Join(FixSentences(SplitOn(text, '.')), " "))
  {
    var sentences := SplitOn(text, '.');
    var fixed: seq<string> := [];
    for i := 0 to |sentences|
      invariant fixed == FixSentences(sentences)[..i]
    {
      var sentence := Strip(sentences[i]);
      if sentence != "" && sentence[|sentence| - 1] != '!' && sentence[|sentence| - 1] != '?' {
        if |Words(sentence)| > 3 {
          sentence := sentence + ".";
        }
      }
      assert sentence == FixSentences(sentences)[i];
      PrefixSnoc(FixSentences(sentences), i);
      fixed := fixed + [sentence];
    }
    assert FixSentences(sentences)[..|sentences|] == FixSentences(sentences);
    r := Strip(Join(fixed, " "));
  }

  /** `normalize_punctuation` */
  method NormalizePunctuation(text: string) returns (r: string)
    ensures r == Strip(Join(FixSentences(SplitOn(MarksNormalized(text), '.')), " "))
  {
    var t := CollapseBangs(text);
    t := CollapseQuestions(t);
    t := CollapseDots(t);
    t := DropSpaceBeforeMarks(t);
    t := SpaceMarksFromLetters(t);
    r := AddSentencePeriods(t);
  }

  /** A piece of the cut has no period, so a fixed piece has one exactly when it was given one, at its end. */
  lemma FixSentencePeriod(piece: string)
    requires '.' !in piece
    ensures var f := FixSentence(piece);
            multiset(f)['.'] == (if GetsPeriod(Strip(piece)) then 1 else 0) &&
            (GetsPeriod(Strip(piece)) ==> f[|f| - 1] == '.')
  {
    StripKeepsCount(piece, '.');
  }

  /** How many pieces get a period. */
  function PeriodPieces(pieces: seq<string>): nat {
    if pieces == [] then 0 else (if GetsPeriod(Strip(pieces[0])) then 1 else 0) + PeriodPieces(pieces[1..])
  }

  /** Joining with spaces adds no period. */
  lemma {:induction false} PeriodsOfJoin(pieces: seq<string>)
    requires forall k :: 0 <= k < |pieces| ==> '.' !in pieces[k]
    ensures multiset(Join(FixSentences(pieces), " "))['.'] == PeriodPieces(pieces)
  {
    if pieces != [] {
      FixSentencePeriod(pieces[0]);
      var fixed := FixSentences(pieces);
      if |pieces| > 1 {
        PeriodsOfJoin(pieces[1..]);
        assert fixed[1..] == FixSentences(pieces[1..]);
        assert Join(fixed, " ") == fixed[0] + " " + Join(fixed[1..], " ");
      }
    }
  }

  /**
   * The result of lines 237-246 is stripped and has exactly one period per
   * piece that has more than three words and does not end in `!` or `?`;
   * the periods of shorter pieces are gone.
   */
  lemma SentencePeriods(text: string)
    ensures var r := Strip(Join(FixSentences(SplitOn(text, '.')), " "));
            Trimmed(r) && multiset(r)['.'] == PeriodPieces(SplitOn(text, '.'))
  {
    var j := Join(FixSentences(SplitOn(text, '.')), " ");
    var _, _ := StripParts(j);
    PeriodsOfJoin(SplitOn(text, '.'));
    StripKeepsCount(j, '.');
  }
}
