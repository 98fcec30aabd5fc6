/**
 * The loop body of `improve_sentence_structure` for one sentence piece: the
 * break points, the first-occurrence split and the rewrite.
 */
module SentenceBreaks {
  import opened Wrappers
  import opened Text
  import opened Scan

  /** The break points in the order they are tried. */
  const BreakPoints: seq<string> := [", but ", ", and ", ", so ", ", because ", ", when ", ", which "]

  /** A comma, a word that does not end in whitespace, and one space. */
  predicate BreakPointShaped(bp: string) {
    |bp| >= 2 && bp[0] == ',' && bp[|bp| - 1] == ' ' && !IsSpace(bp[|bp| - 2])
  }

  predicate AllShaped(bps: seq<string>) {
    forall j :: 0 <= j < |bps| ==> BreakPointShaped(bps[j])
  }

  lemma BreakPointsShaped()
    ensures AllShaped(BreakPoints)
  {
  }

  /** `x` occurs in `s` at index `i`, compared character by character. */
  function PrefixAt(s: string, i: nat, x: string): (r: bool)
    requires i <= |s|
    ensures r ==> i + |x| <= |s|
    decreases |x|
  {
    x == [] || (i < |s| && s[i] == x[0] && PrefixAt(s, i + 1, x[1..]))
  }

  lemma {:induction false} PrefixAtOccurs(s: string, i: nat, x: string)
    requires i <= |s|
    ensures PrefixAt(s, i, x) <==> OccursAt(s, x, i)
    decreases |x|
  {
    if x != [] && i < |s| {
      PrefixAtOccurs(s, i + 1, x[1..]);
      if i + |x| <= |s| {
        assert s[i..i + |x|] == [s[i]] + s[i + 1..i + 1 + |x[1..]|];
        assert x == [x[0]] + x[1..];
      }
    }
  }

  /** The first position from `i` on where `x` occurs (`str.find`). */
  function Find(s: string, x: string, i: nat): (r: Option<nat>)
    requires i <= |s|
    ensures r.Some? ==> i <= r.value && r.value + |x| <= |s|
    decreases |s| - i
  {
    if PrefixAt(s, i, x) then Some(i)
    else if i == |s| then None
    else Find(s, x, i + 1)
  }

  /** `Find` gives the first occurrence from `i` on, and fails only when there is none (`bp in sentence`). */
  lemma {:induction false} FindFirst(s: string, x: string, i: nat)
    requires i <= |s|
    ensures var r := Find(s, x, i);
            (r.Some? ==> OccursAt(s, x, r.value) && forall k :: i <= k < r.value ==> !OccursAt(s, x, k)) &&
            (r.None? ==> forall k :: i <= k <= |s| ==> !OccursAt(s, x, k))
    decreases |s| - i
  {
    PrefixAtOccurs(s, i, x);
    if !OccursAt(s, x, i) && i < |s| {
      FindFirst(s, x, i + 1);
    }
  }

  /**
   * `sentence.split(bp, 1)` and the rewrite: when `bp` occurs and more than 50
   * characters precede its first occurrence, the part before, a period, the
   * stripped break point, a space and the capitalised rest.
   */
  function BreakAt(s: string, bp: string): Option<string> {
    match Find(s, bp, 0)
    case None => None
    case Some(k) =>
      if k > 50 then Some(Rejoin(s, k, bp)) else None
  }

  /** `parts[0] + '.' + break_point.strip() + ' ' + parts[1].capitalize()` */
  function Rejoin(s: string, k: nat, bp: string): string
    requires k + |bp| <= |s|
  {
    s[..k] + "." + Strip(bp) + " " + Capitalize(s[k + |bp|..])
  }

  /** The first break point of `bps` from number `j` on that applies, or the sentence itself. */
  function TryBreaks(s: string, bps: seq<string>, j: nat): string
    requires j <= |bps|
    decreases |bps| - j
  {
    if j == |bps| then s
    else match BreakAt(s, bps[j])
      case Some(t) => t
      case None => TryBreaks(s, bps, j + 1)
  }

  /** One sentence piece after the loop body. */
  function ImproveSentence(s: string): string {
    if |s| > 200 then TryBreaks(s, BreakPoints, 0) else s
  }

  /** The loop body for one sentence piece: a piece over 200 characters goes through the break points, and the inner loop stops at the first rewrite. */
  method BreakLongSentence(sentence: string) returns (r: string)
    ensures r == ImproveSentence(sentence)
  {
    r := sentence;
    if |sentence| > 200 {
      var breakPoints := BreakPoints;
      for i := 0 to |breakPoints|
        invariant r == sentence
        invariant TryBreaks(sentence, breakPoints, 0) == TryBreaks(sentence, breakPoints, i)
      {
        var breakPoint := breakPoints[i];
        var k := Find(sentence, breakPoint, 0);
        if k.Some? {
          if k.value > 50 {
            r := Rejoin(sentence, k.value, breakPoint);
            break;
          }
        }
      }
    }
  }

  // ---------------------------------------------------------------- what the rewrite changes

  /** Some break point applies to a piece. */
  predicate Breaks(s: string) {
    |s| > 200 && exists j :: 0 <= j < |BreakPoints| && BreakAt(s, BreakPoints[j]).Some?
  }

  /** A break point strips to itself without its trailing space. */
  lemma StripBreakPoint(bp: string)
    requires BreakPointShaped(bp)
    ensures Strip(bp) == bp[..|bp| - 1]
  {
    assert RunFrom(bp, 0, IsSpace) == 0;
    assert TrimEnd(bp, 0, |bp| - 1) == |bp| - 1;
  }

  /** A rewrite inserts exactly one character, the period. */
  lemma BreakAtLength(s: string, bp: string)
    requires BreakPointShaped(bp) && BreakAt(s, bp).Some?
    ensures |BreakAt(s, bp).value| == |s| + 1
  {
    StripBreakPoint(bp);
  }

  lemma {:induction false} TryBreaksFrom(s: string, bps: seq<string>, n: nat)
    requires n <= |bps| && AllShaped(bps)
    ensures (exists j :: n <= j < |bps| && BreakAt(s, bps[j]).Some?) ==> |TryBreaks(s, bps, n)| == |s| + 1
    ensures (forall j :: n <= j < |bps| ==> BreakAt(s, bps[j]).None?) ==> TryBreaks(s, bps, n) == s
    decreases |bps| - n
  {
    if n < |bps| {
      if BreakAt(s, bps[n]).Some? {
        BreakAtLength(s, bps[n]);
      } else {
        TryBreaksFrom(s, bps, n + 1);
      }
    }
  }

  /** A piece is rewritten exactly when a break point applies, and then grows by one character. */
  lemma ImproveSentenceChange(s: string)
    ensures |ImproveSentence(s)| == |s| + (if Breaks(s) then 1 else 0)
    ensures ImproveSentence(s) == s <==> !Breaks(s)
  {
    BreakPointsShaped();
    TryBreaksFrom(s, BreakPoints, 0);
  }

  /** A loop body that leaves a piece as it is or adds one character. */
  ghost predicate KeepsOrGrowsByOne(g: string -> string) {
    forall s :: g(s) == s || |g(s)| == |s| + 1
  }

  lemma ImproveSentenceKeepsOrGrows()
    ensures KeepsOrGrowsByOne(ImproveSentence)
  {
    forall s ensures ImproveSentence(s) == s || |ImproveSentence(s)| == |s| + 1 {
      ImproveSentenceChange(s);
    }
  }

}

/**
 * `improve_sentence_structure`: the text is split around every `.`, `!` and
 * `?` (the marks kept as pieces of their own); a sentence piece longer than
 * 200 characters is cut once, at the first break point of the list that
 * occurs in it with more than 50 characters before it; the pieces are
 * concatenated again.
 */
module FormatStructure {
  import opened Text
  import opened SentenceBreaks

  predicate IsEndMark(c: char) { c == '.' || c == '!' || c == '?' }

  predicate NoEndMark(s: string) { forall k :: 0 <= k < |s| ==> !IsEndMark(s[k]) }

  /** The position of the first end mark from `i` on, or the length of `s`. */
  function FirstMark(s: string, i: nat): (k: nat)
    requires i <= |s|
    ensures i <= k <= |s| && (k < |s| ==> IsEndMark(s[k]))
    decreases |s| - i
  {
    if i == |s| || IsEndMark(s[i]) then i else FirstMark(s, i + 1)
  }

  lemma {:induction false} FirstMarkFirst(s: string, i: nat)
    requires i <= |s|
    ensures NoEndMark(s[i..FirstMark(s, i)])
    decreases |s| - i
  {
    if i < |s| && !IsEndMark(s[i]) {
      FirstMarkFirst(s, i + 1);
      assert s[i..FirstMark(s, i)] == [s[i]] + s[i + 1..FirstMark(s, i + 1)];
    }
  }

  /**
   * `re.split(r'([.!?])', text)`: the text up to the first mark, the mark as
   * a piece of its own, and the split of the rest.
   */
  function SplitMarks(s: string): (parts: seq<string>)
    ensures |parts| % 2 == 1
    decreases |s|
  {
    var k := FirstMark(s, 0);
    if k == |s| then [s] else [s[..k], [s[k]]] + SplitMarks(s[k + 1..])
  }

  /** Sentence pieces at the even positions hold no mark; each odd position holds one mark. */
  lemma {:induction false} SplitMarksShape(s: string)
    ensures forall j :: 0 <= j < |SplitMarks(s)| && j % 2 == 0 ==> NoEndMark(SplitMarks(s)[j])
    ensures forall j :: 0 <= j < |SplitMarks(s)| && j % 2 == 1 ==> |SplitMarks(s)[j]| == 1 && IsEndMark(SplitMarks(s)[j][0])
    decreases |s|
  {
    var k := FirstMark(s, 0);
    FirstMarkFirst(s, 0);
    assert s[0..k] == s[..k];
    if k < |s| {
      SplitMarksShape(s[k + 1..]);
      var parts := SplitMarks(s);
      var rest := SplitMarks(s[k + 1..]);
      assert parts == [s[..k], [s[k]]] + rest;
      forall j | 2 <= j < |parts|
        ensures (j % 2 == 0 ==> NoEndMark(parts[j])) && (j % 2 == 1 ==> |parts[j]| == 1 && IsEndMark(parts[j][0]))
      {
        assert parts[j] == rest[j - 2] && (j - 2) % 2 == j % 2;
      }
    } else {
      assert s[..k] == s;
    }
  }

  /** `''.join(re.split(r'([.!?])', text)) == text`: the split loses nothing. */
  lemma {:induction false} JoinSplitMarks(s: string)
    ensures Join(SplitMarks(s), "") == s
    decreases |s|
  {
    var k := FirstMark(s, 0);
    if k < |s| {
      var rest := SplitMarks(s[k + 1..]);
      JoinSplitMarks(s[k + 1..]);
      var parts := [s[..k], [s[k]]] + rest;
      JoinHead(parts);
      assert parts[1..] == [[s[k]]] + rest && parts[1..][1..] == rest;
      JoinHead(parts[1..]);
      assert s == s[..k] + ([s[k]] + s[k + 1..]);
    }
  }

  /** No piece is longer than the text. */
  lemma {:induction false} SplitMarksShorter(s: string)
    ensures forall j :: 0 <= j < |SplitMarks(s)| ==> |SplitMarks(s)[j]| <= |s|
    decreases |s|
  {
    var k := FirstMark(s, 0);
    if k < |s| {
      SplitMarksShorter(s[k + 1..]);
      var parts := SplitMarks(s);
      var rest := SplitMarks(s[k + 1..]);
      assert forall j :: 2 <= j < |parts| ==> parts[j] == rest[j - 2];
    }
  }

  /** The `j`-th output piece: sentence `2j` after the loop body `g`, with the mark after it if there is one. */
  function Pair(g: string -> string, parts: seq<string>, j: nat): string
    requires 2 * j < |parts|
  {
    g(parts[2 * j]) + (if 2 * j + 1 < |parts| then parts[2 * j + 1] else "")
  }

  /** The first `n` output pieces. */
  function PairsUpTo(g: string -> string, parts: seq<string>, n: nat): (r: seq<string>)
    requires 2 * n <= |parts| + 1
    ensures |r| == n
  {
    if n == 0 then [] else PairsUpTo(g, parts, n - 1) + [Pair(g, parts, n - 1)]
  }

  lemma PairsUpToSnoc(g: string -> string, parts: seq<string>, n: nat)
    requires 2 * n < |parts|
    ensures PairsUpTo(g, parts, n + 1) == PairsUpTo(g, parts, n) + [g(parts[2 * n]) + (if 2 * n + 1 < |parts| then parts[2 * n + 1] else "")]
  {
  }

  /** What `improve_sentence_structure` returns. */
  function Improved(text: string): string {
    var parts := SplitMarks(text);
    Join(PairsUpTo(ImproveSentence, parts, (|parts| + 1) / 2), "")
  }

  /** `improve_sentence_structure` */
  method ImproveSentenceStructure(text: string) returns (r: string)
    ensures r == Improved(text)
  {
    var sentences := SplitMarks(text);
    var improved: seq<string> := [];
    var i := 0;
    while i < |sentences|
      invariant i == 2 * |improved| && i <= |sentences| + 1
      invariant improved == PairsUpTo(ImproveSentence, sentences, |improved|)
      decreases |sentences| - i
    {
      var sentence := BreakLongSentence(sentences[i]);
      var punctuation := if i + 1 < |sentences| then sentences[i + 1] else "";
      PairsUpToSnoc(ImproveSentence, sentences, |improved|);
      improved := improved + [sentence + punctuation];
      i := i + 2;
    }
    assert |improved| == (|sentences| + 1) / 2;
    r := Join(improved, "");
  }

  // ---------------------------------------------------------------- what the rewrite changes

  /** How many of the first `n` sentence pieces `g` changes. */
  function ChangedUpTo(g: string -> string, parts: seq<string>, n: nat): nat
    requires 2 * n <= |parts| + 1
  {
    if n == 0 then 0 else ChangedUpTo(g, parts, n - 1) + (if g(parts[2 * n - 2]) != parts[2 * n - 2] then 1 else 0)
  }

  /** How many sentence pieces of the text are rewritten, that is, have a break point that applies. */
  function BrokenCount(text: string): nat {
    var parts := SplitMarks(text);
    ChangedUpTo(ImproveSentence, parts, (|parts| + 1) / 2)
  }

  lemma JoinHead(parts: seq<string>)
    requires |parts| >= 2
    ensures Join(parts, "") == parts[0] + Join(parts[1..], "")
  {
  }

  lemma {:induction false} JoinSnoc(xs: seq<string>, x: string)
    ensures Join(xs + [x], "") == Join(xs, "") + x
    decreases |xs|
  {
    if xs != [] {
      var ys := xs + [x];
      assert ys[0] == xs[0] && ys[1..] == xs[1..] + [x];
      JoinHead(ys);
      JoinSnoc(xs[1..], x);
      if |xs| >= 2 {
        JoinHead(xs);
      } else {
        assert xs[1..] == [];
      }
    }
  }

  lemma JoinPrefixStep(parts: seq<string>, k: nat)
    requires k < |parts|
    ensures Join(parts[..k + 1], "") == Join(parts[..k], "") + parts[k]
  {
    assert parts[..k + 1] == parts[..k] + [parts[k]];
    JoinSnoc(parts[..k], parts[k]);
  }

  /** How many input pieces the first `n` output pieces come from. */
  function Covered(n: nat, size: nat): nat {
    if 2 * n <= size then 2 * n else size
  }

  /** One more output piece: the joined output grows by the piece through `g` and its mark. */
  lemma PairsUpToStep(g: string -> string, parts: seq<string>, n: nat)
    requires 2 <= 2 * n <= |parts| + 1
    ensures var k := 2 * n - 2;
            var mark := if k + 1 < |parts| then parts[k + 1] else "";
            Join(PairsUpTo(g, parts, n), "") == Join(PairsUpTo(g, parts, n - 1), "") + (g(parts[k]) + mark)
  {
    var k := 2 * n - 2;
    var mark := if k + 1 < |parts| then parts[k + 1] else "";
    JoinSnoc(PairsUpTo(g, parts, n - 1), g(parts[k]) + mark);
  }

  /** The same step on the input side: the joined input grows by the piece and its mark. */
  lemma CoveredStep(parts: seq<string>, n: nat)
    requires 2 <= 2 * n <= |parts| + 1
    ensures var k := 2 * n - 2;
            var mark := if k + 1 < |parts| then parts[k + 1] else "";
            Join(parts[..Covered(n, |parts|)], "") == Join(parts[..Covered(n - 1, |parts|)], "") + (parts[k] + mark)
  {
    var k := 2 * n - 2;
    var mark := if k + 1 < |parts| then parts[k + 1] else "";
    JoinPrefixStep(parts, k);
    if k + 1 < |parts| {
      JoinPrefixStep(parts, k + 1);
      ConcatAssoc(Join(parts[..k], ""), parts[k], mark);
    }
  }

  /** The first `n` output pieces are one character longer per changed piece than the input pieces they come from. */
  lemma {:induction false} PairsUpToLength(g: string -> string, parts: seq<string>, n: nat)
    requires 2 * n <= |parts| + 1 && KeepsOrGrowsByOne(g)
    ensures |Join(PairsUpTo(g, parts, n), "")| == |Join(parts[..Covered(n, |parts|)], "")| + ChangedUpTo(g, parts, n)
  {
    if n == 0 {
      assert parts[..0] == [];
    } else {
      PairsUpToLength(g, parts, n - 1);
      PairsUpToStep(g, parts, n);
      CoveredStep(parts, n);
      var piece := parts[2 * n - 2];
      assert g(piece) == piece || |g(piece)| == |piece| + 1;
    }
  }

  /** When `g` changes none of the first `n` sentence pieces, the output pieces are the input pieces. */
  lemma {:induction false} PairsUpToSame(g: string -> string, parts: seq<string>, n: nat)
    requires 2 * n <= |parts| + 1 && ChangedUpTo(g, parts, n) == 0
    ensures Join(PairsUpTo(g, parts, n), "") == Join(parts[..Covered(n, |parts|)], "")
  {
    if n == 0 {
      assert parts[..0] == [];
    } else {
      PairsUpToSame(g, parts, n - 1);
      PairsUpToStep(g, parts, n);
      CoveredStep(parts, n);
    }
  }

  /** All output pieces against all input pieces, for any loop body that keeps a piece or adds one character. */
  lemma PiecesChange(g: string -> string, parts: seq<string>)
    requires |parts| % 2 == 1 && KeepsOrGrowsByOne(g)
    ensures var n := (|parts| + 1) / 2;
            |Join(PairsUpTo(g, parts, n), "")| == |Join(parts, "")| + ChangedUpTo(g, parts, n) &&
            (ChangedUpTo(g, parts, n) == 0 ==> Join(PairsUpTo(g, parts, n), "") == Join(parts, ""))
  {
    var n := (|parts| + 1) / 2;
    PairsUpToLength(g, parts, n);
    if ChangedUpTo(g, parts, n) == 0 {
      PairsUpToSame(g, parts, n);
    }
    assert parts[..Covered(n, |parts|)] == parts;
  }

  /**
   * `improve_sentence_structure` returns its input exactly when no sentence
   * piece is rewritten, and is one character longer per rewritten piece.
   */
  lemma ImproveSentenceStructureChange(text: string)
    ensures |Improved(text)| == |text| + BrokenCount(text)
    ensures Improved(text) == text <==> BrokenCount(text) == 0
  {
    ImproveSentenceKeepsOrGrows();
    PiecesChange(ImproveSentence, SplitMarks(text));
    JoinSplitMarks(text);
  }

  lemma {:induction false} ShortPiecesUnchanged(parts: seq<string>, n: nat)
    requires 2 * n <= |parts| + 1
    requires forall k :: 0 <= k < |parts| ==> |parts[k]| <= 200
    ensures ChangedUpTo(ImproveSentence, parts, n) == 0
  {
    if n > 0 {
      ShortPiecesUnchanged(parts, n - 1);
    }
  }

  /** A text of at most 200 characters is never changed. */
  lemma ShortTextUnchanged(text: string)
    requires |text| <= 200
    ensures Improved(text) == text
  {
    var parts := SplitMarks(text);
    SplitMarksShorter(text);
    ShortPiecesUnchanged(parts, (|parts| + 1) / 2);
    ImproveSentenceStructureChange(text);
  }
}
