/**
 * `format_text_for_tts`: the ten formatting steps in their fixed order, then,
 * when context words are wanted, `"…"` is read out as `quote … end quote`;
 * and `format_reddit_post_for_tts`, which adds the formatted title and body
 * to a copy of a post record.
 *
 * The program runs its steps as written. The same chain with the corrected
 * currency, profanity and pause steps (ranges before amounts, whole-word
 * profanity, no second comma after a transition phrase) is the `Corrected`
 * version; the lemmas about the chain hold for both.
 */
module FormatPipeline {
  import opened Wrappers
  import opened Text
  import opened Scan
  import opened JsonValues
  import FormatEncoding
  import FormatMarkers
  import FormatAbbrev
  import AbbrevTable
  import FormatCurrency
  import FormatProfanity
  import FormatPunctuation
  import FormatPauses
  import FormatStructure
  import FormatWhitespace

  // ---------------------------------------------------------------- quotes read out

  predicate NotQuote(c: char) { c != '"' }

  /** `"([^"]+)"` anchored at the start of `t`, replaced by `quote \1 end quote`. */
  function QuoteAt(t: string): Option<Hit> {
    if t != "" && t[0] == '"' && 0 < RunFrom(t, 1, NotQuote) && 1 + RunFrom(t, 1, NotQuote) < |t|
    then Some(Hit(RunFrom(t, 1, NotQuote) + 2, "quote " + t[1..1 + RunFrom(t, 1, NotQuote)] + " end quote"))
    else None
  }

  function Quotes(text: string): string {
    Sub(QuoteAt, text)
  }

  /** A text without a double quote is not changed. */
  lemma QuoteFreeUnchanged(text: string)
    requires '"' !in text
    ensures Quotes(text) == text
  {
    forall k | 0 <= k < |text| ensures !HitsAt(QuoteAt, text[k..]) {
      assert text[k..][0] == text[k];
    }
    SubIdentity(QuoteAt, text);
  }

  /** A quoted stretch is read out with its words unchanged, and the scan goes on after it. */
  lemma QuotedSpan(x: string, rest: string)
    requires x != "" && '"' !in x
    ensures Quotes("\"" + x + "\"" + rest) == "quote " + x + " end quote" + Quotes(rest)
  {
    var t := "\"" + x + "\"" + rest;
    forall k | 1 <= k < 1 + |x| ensures NotQuote(t[k]) {
      assert t[k] == x[k - 1];
    }
    assert t[1 + |x|] == '"';
    RunFromOf(t, 1, |x|, NotQuote);
    assert t[1..1 + |x|] == x;
    assert t[|x| + 2..] == rest;
    SubHit(QuoteAt, t, |x| + 2, "quote " + x + " end quote");
  }

  /** Text wrapped in strings without `c` holds `c` as often as the text does. */
  lemma WrappedCount(a: string, x: string, b: string, c: char)
    requires c !in a && c !in b
    ensures multiset(a + x + b)[c] == multiset(x)[c]
  {
    assert multiset(a + x + b) == multiset(a) + multiset(x) + multiset(b);
  }

  /** A match is a quoted stretch, and its replacement wraps the same stretch. */
  lemma QuoteHitShape(t: string) returns (x: string)
    requires HitsAt(QuoteAt, t)
    ensures t[..QuoteAt(t).value.len] == "\"" + x + "\""
    ensures QuoteAt(t).value.rep == "quote " + x + " end quote"
  {
    var n := RunFrom(t, 1, NotQuote);
    x := t[1..1 + n];
    assert t[..n + 2] == "\"" + x + "\"";
  }

  /**
   * Reading quotes out adds only spaces and the lower-case letters of
   * `quote end`, and removes only double quotes: every other character occurs
   * as often as before.
   */
  lemma QuoteKeepsCount(c: char)
    requires c != '"' && c != ' ' && !IsLower(c)
    ensures CountKept(QuoteAt, c)
  {
    forall t | HitsAt(QuoteAt, t) ensures multiset(QuoteAt(t).value.rep)[c] == multiset(t[..QuoteAt(t).value.len])[c] {
      var x := QuoteHitShape(t);
      WrappedCount("quote ", x, " end quote", c);
      WrappedCount("\"", x, "\"", c);
    }
  }

  // ---------------------------------------------------------------- the ten steps

  /** The steps as the program writes them, or with the three corrected steps. */
  datatype Version = AsWritten | Corrected

  function Currency(steps: Version, text: string): string {
    if steps == AsWritten then FormatCurrency.CurrencyAndNumbersAsWritten(text) else FormatCurrency.CurrencyAndNumbers(text)
  }

  function Profanity(steps: Version, text: string): string {
    if steps == AsWritten then FormatProfanity.HandleProfanityAsWritten(text) else FormatProfanity.HandleProfanity(text)
  }

  function Pauses(steps: Version, text: string): string {
    if steps == AsWritten then FormatPauses.ReadingPausesAsWritten(text) else FormatPauses.ReadingPauses(text)
  }

  /** The ten steps of `format_text_for_tts`, without the context words. */
  function Formatted(text: string, steps: Version, nfkd: string -> string): string {
    var fixed := nfkd(FormatEncoding.ApplyFixes(text, FormatEncoding.EncodingFixes));
    var marked := FormatMarkers.HandleSuperscriptOrdinals(FormatMarkers.HandleAgeGenderMarkers(fixed));
    var expanded := Join(FormatAbbrev.ExpandWords(AbbrevTable.Abbreviations, Words(marked)), " ");
    var censored := Profanity(steps, Currency(steps, expanded));
    var punctuated := Strip(Join(FormatPunctuation.FixSentences(SplitOn(FormatPunctuation.MarksNormalized(censored), '.')), " "));
    FormatWhitespace.CleanWhitespace(FormatStructure.Improved(Pauses(steps, punctuated)))
  }

  /** What the chain returns for a string. */
  function FormattedForTts(text: string, context: bool, steps: Version, nfkd: string -> string): string {
    if context then Quotes(Formatted(text, steps, nfkd)) else Formatted(text, steps, nfkd)
  }

  /**
   * What `format_text_for_tts` returns for any value: `""` for anything but a
   * string, and one line in every case; without context words, single-spaced
   * and stripped.
   */
  function TextForTts(v: Json, context: bool, nfkd: string -> string): (r: string)
    ensures !v.Str? ==> r == ""
    ensures '\n' !in r
    ensures !context ==> FormatWhitespace.SingleSpaced(r) && Trimmed(r)
  {
    if v.Str? then
      ResultOneLine(v.s, context, AsWritten, nfkd);
      PlainResultClean(v.s, AsWritten, nfkd);
      FormattedForTts(v.s, context, AsWritten, nfkd)
    else ""
  }

  /** `format_text_for_tts`, step by step, as the program runs it. */
  method FormatTextForTts(v: Json, context: bool, nfkd: string -> string) returns (r: string)
    ensures !v.Str? ==> r == ""
    ensures v.Str? ==> r == FormattedForTts(v.s, context, AsWritten, nfkd)
  {
    if !v.Str? {
      return "";
    }
    var text := FormatEncoding.FixEncodingIssues(v.s, nfkd);
    text := FormatMarkers.HandleAgeGenderMarkers(text);
    text := FormatMarkers.HandleSuperscriptOrdinals(text);
    text := FormatAbbrev.ExpandAbbreviations(AbbrevTable.Abbreviations, text);
    text := FormatCurrency.CurrencyAndNumbersAsWritten(text);
    text := FormatProfanity.CensorProfanity(text);
    text := FormatPunctuation.NormalizePunctuation(text);
    text := FormatPauses.AddReadingPauses(text);
    text := FormatStructure.ImproveSentenceStructure(text);
    text := FormatWhitespace.CleanWhitespace(text);
    if context {
      text := Quotes(text);
    }
    r := text;
  }

  /** The ten steps end with `clean_whitespace`. */
  lemma FormattedIsCleaned(text: string, steps: Version, nfkd: string -> string) returns (u: string)
    ensures Formatted(text, steps, nfkd) == FormatWhitespace.CleanWhitespace(u)
  {
    var marked := FormatMarkers.HandleSuperscriptOrdinals(FormatMarkers.HandleAgeGenderMarkers(nfkd(FormatEncoding.ApplyFixes(text, FormatEncoding.EncodingFixes))));
    var expanded := Join(FormatAbbrev.ExpandWords(AbbrevTable.Abbreviations, Words(marked)), " ");
    var censored := Profanity(steps, Currency(steps, expanded));
    var punctuated := Strip(Join(FormatPunctuation.FixSentences(SplitOn(FormatPunctuation.MarksNormalized(censored), '.')), " "));
    u := FormatStructure.Improved(Pauses(steps, punctuated));
  }

  /** Without context words the result is one line, single-spaced and stripped, in either version. */
  lemma PlainResultClean(text: string, steps: Version, nfkd: string -> string)
    ensures FormatWhitespace.SingleSpaced(FormattedForTts(text, false, steps, nfkd))
    ensures Trimmed(FormattedForTts(text, false, steps, nfkd))
    ensures '\n' !in FormattedForTts(text, false, steps, nfkd)
  {
    var u := FormattedIsCleaned(text, steps, nfkd);
    FormatWhitespace.CleanWhitespaceClean(u);
  }

  /** Reading quotes out starts no new line. */
  lemma QuotesOneLine(plain: string)
    requires '\n' !in plain
    ensures '\n' !in Quotes(plain)
  {
    assert multiset(plain)['\n'] == 0;
    QuoteKeepsCount('\n');
    SubKeepsCount(QuoteAt, plain, '\n');
    assert multiset(Quotes(plain))['\n'] == 0;
  }

  /** With or without context words, in either version, the result is one line. */
  lemma ResultOneLine(text: string, context: bool, steps: Version, nfkd: string -> string)
    ensures '\n' !in FormattedForTts(text, context, steps, nfkd)
  {
    PlainResultClean(text, steps, nfkd);
    QuotesOneLine(Formatted(text, steps, nfkd));
  }

  /** Context words change nothing in a result without double quotes, in either version. */
  lemma ContextWordsNeedQuotes(text: string, steps: Version, nfkd: string -> string)
    requires '"' !in FormattedForTts(text, false, steps, nfkd)
    ensures FormattedForTts(text, true, steps, nfkd) == FormattedForTts(text, false, steps, nfkd)
  {
    QuoteFreeUnchanged(Formatted(text, steps, nfkd));
  }

  // ---------------------------------------------------------------- post records

  const PostKey := "submission_post"
  const TitleKey := "submission_title"
  const PostTtsKey := "submission_post_tts"
  const TitleTtsKey := "submission_title_tts"

  /**
   * A copy of the record with `say` applied to the body and the title, added
   * under their `_tts` keys when the record has them; anything but a record is
   * returned as it is.
   */
  function WithSpoken(post: Json, say: Json -> string): (r: Json)
    ensures !post.Object? ==> r == post
    ensures post.Object? ==> r.Object?
    ensures post.Object? ==> r.fields.Keys == post.fields.Keys + (if PostKey in post.fields then {PostTtsKey} else {}) + (if TitleKey in post.fields then {TitleTtsKey} else {})
    ensures post.Object? ==> forall k :: k in post.fields && k != PostTtsKey && k != TitleTtsKey ==> r.fields[k] == post.fields[k]
    ensures post.Object? && PostKey in post.fields ==> r.fields[PostTtsKey] == Str(say(post.fields[PostKey]))
    ensures post.Object? && TitleKey in post.fields ==> r.fields[TitleTtsKey] == Str(say(post.fields[TitleKey]))
  {
    if !post.Object? then post
    else
      var f := post.fields;
      var withPost := if PostKey in f then f[PostTtsKey := Str(say(f[PostKey]))] else f;
      var withTitle := if TitleKey in f then withPost[TitleTtsKey := Str(say(f[TitleKey]))] else withPost;
      Object(withTitle)
  }

  /** Adding the spoken fields again gives the same record. */
  lemma WithSpokenIdempotent(post: Json, say: Json -> string)
    ensures WithSpoken(WithSpoken(post, say), say) == WithSpoken(post, say)
  {
    if post.Object? {
      var once := WithSpoken(post, say);
      var twice := WithSpoken(once, say);
      assert PostKey in once.fields <==> PostKey in post.fields;
      assert TitleKey in once.fields <==> TitleKey in post.fields;
      assert twice.fields == once.fields;
    }
  }

  /** `format_reddit_post_for_tts`, whose formatter is `format_text_for_tts` with context words. */
  function RedditPostForTts(post: Json, nfkd: string -> string): (r: Json)
    ensures !post.Object? ==> r == post
    ensures post.Object? ==> r.Object?
    ensures post.Object? ==> forall k :: k in post.fields && k != PostTtsKey && k != TitleTtsKey ==> k in r.fields && r.fields[k] == post.fields[k]
    ensures post.Object? ==> (PostTtsKey in r.fields <==> PostKey in post.fields || PostTtsKey in post.fields)
    ensures post.Object? ==> (TitleTtsKey in r.fields <==> TitleKey in post.fields || TitleTtsKey in post.fields)
    ensures post.Object? && PostKey in post.fields ==> r.fields[PostTtsKey] == Str(TextForTts(post.fields[PostKey], true, nfkd))
    ensures post.Object? && TitleKey in post.fields ==> r.fields[TitleTtsKey] == Str(TextForTts(post.fields[TitleKey], true, nfkd))
  {
    WithSpoken(post, (v: Json) => TextForTts(v, true, nfkd))
  }

  /** Formatting a formatted record again gives the same record. */
  lemma RedditPostIdempotent(post: Json, nfkd: string -> string)
    ensures RedditPostForTts(RedditPostForTts(post, nfkd), nfkd) == RedditPostForTts(post, nfkd)
  {
    WithSpokenIdempotent(post, (v: Json) => TextForTts(v, true, nfkd));
  }
}
