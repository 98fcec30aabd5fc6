# Reddit stories to Shorts: text formatting, post selection and uploading

This project models the logic of a tool that turns Reddit stories into short
narrated videos. It covers three pieces of that tool:

- **The text-to-speech formatter** (`format.py`). This is the fixed pipeline
  `format_text_for_tts`, which repairs mojibake and then spells out age/gender
  markers, superscript ordinals and abbreviations. Next it spells out amounts,
  percentages and clock times and censored profanity. It then normalises
  punctuation, adds reading pauses, breaks long sentences, cleans whitespace
  and reads quotes out. `format_reddit_post_for_tts` adds the formatted title
  and body to a post record. Each `re.sub` is a hand-written matcher (a
  `Rule` or `RuleAt`). The generic left-to-right scanner in module `Scan` runs
  it with `re.sub`'s leftmost, non-overlapping semantics.
- **The post scraper's selection loop** (`reddit.py`). It reads the saved
  posts and walks the "hot" listing. A submission is skipped when its id is
  already saved, when it has no author, or when its author is a moderator
  account. The walk stops once `target_count` records are collected, and the
  new records are appended after the saved ones.
- **The uploader** (`upload_to_youtube.py`). This covers `safe_name`, the
  title map built from `posts.json`, the title inferred from a `NAME_ptN`
  file name, and the 100-character title cut. It also covers the return value
  of `upload_video` and the loop of `main`. That loop uploads each globbed
  file, in sorted order, at most once. It uses `.uploaded` marker files as its
  state.

The model is in Dafny modules, one per source function group:

- `Text`, `Scan`, `JsonValues` and `Wrappers`: shared helpers.
- `FormatEncoding`, `FormatMarkers`, `FormatAbbrev` and `AbbrevTable`.
- `FormatCurrency`, `FormatProfanity`, `FormatPunctuation` and `FormatPauses`.
- `SentenceBreaks`, `FormatStructure`, `FormatWhitespace` and `FormatPipeline`.
- `RedditScrape`.
- `UploadNames`, `UploadTitles` and `UploadMain`.

The source has loops that update variables, and these are methods with loop
invariants. Each method is proved equal to a specification function. The
properties are proved about those functions as lemmas. The uploader's marker
files are the state of the class `UploadMain.Uploader`. The loop's lemmas see
`upload_video` only as a function from path to returned id (`Env.reply`);
`UploadMain.Replies` builds that function from the title map and the API.

Character classes are ASCII only:

- `\s` and `str.isspace` are space, `\t`, `\n`, `\r`, `\v`, `\f` and `\x1c`-`\x1f`.
- `\d` is `[0-9]`, and `int()` reads only these digits.
- `\w` is `[A-Za-z0-9_]`, and `isalnum` is `[A-Za-z0-9]`.
- `upper`, `lower` and `capitalize` change ASCII letters only.

## Model

| member | source | states |
|---|---|---|
| FormatEncoding.FixEncodingReplacements | format.py:112-113 | The replacement loop gives the text with every table entry replaced, first entry to last |
| FormatEncoding.FixEncodingIssues | format.py:90-118 | `fix_encoding_issues` is the replacement loop followed by NFKD normalisation |
| FormatEncoding.CleanTextUnchanged | format.py:93-113 | Text containing neither `â` nor `Â` is returned unchanged by the loop |
| FormatEncoding.NoApostropheLeft | format.py:93-113 | After the first entry no `â€™` is left, and entries two to eight never recreate one |
| FormatEncoding.ContractionEntriesUnreachable | format.py:93-113 | The seven `â€™s`/`â€™t`/… entries never fire: the table acts as its first eight entries |
| FormatEncoding.NoNonBreakingMarkLeft | format.py:101-113 | No `Â` survives the loop |
| FormatAbbrev.ExpandAbbreviations | format.py:120-135 | The result is the whitespace-split words, each expanded, joined by single spaces |
| FormatAbbrev.ExpandWordsAt | format.py:125-133 | The k-th output word is the k-th input word expanded: the entry plus its punctuation when its key is in the table, else the word unchanged in its place |
| FormatAbbrev.NoKnownWordJoinsWords | format.py:125-135 | When no key is in the table, the words come out unchanged |
| FormatAbbrev.CleanKeyChars | format.py:127 | A key holds only upper-case letters, digits and underscores |
| FormatAbbrev.ExpansionIgnoresCase | format.py:127-131 | When a word's key is in the table, the word and its lower-case and upper-case forms expand alike |
| FormatAbbrev.PunctuationCount | format.py:130 | The carried-over punctuation is exactly the word's non-alphanumeric characters, each as often as in the word |
| FormatAbbrev.ExpansionExample | format.py:127-131 | `so,` becomes the `SO` entry followed by `,` |
| AbbrevTable.SoExpands | format.py:23-131 | With the program's own table, `so,` becomes `Significant Other,` |
| AbbrevTable.TlDrNeverUsed | format.py:50 | No key can contain `;`, so the `TL;DR` entry never applies |
| FormatMarkers.MarkerRewritten | format.py:140-153 | `(digits letters)` becomes the digits, verbatim, a space and the phrase for the upper-cased letters; scanning continues after `)` |
| FormatMarkers.NoParenthesisUnchanged | format.py:153 | Text without `(` is unchanged |
| FormatMarkers.MarkerTextLowerCase | format.py:144-151 | Letters are upper-cased before lookup: `(7nb)` gives `7 year old non-binary` |
| FormatMarkers.MarkerTextOtherLetters | format.py:150 | Other letter strings such as `MF` give `year old person` |
| FormatMarkers.OrdinalRewritten | format.py:158-179 | `N^(suf)` or `N^suf` becomes the word for `int(N)`, with the caret and parentheses removed; scanning continues after it |
| FormatMarkers.OrdinalWordPlain | format.py:160-177 | The replacement is letters and digits only |
| FormatMarkers.OrdinalExamples | format.py:161-177 | `5^th` reads `fifth` and `01^st` reads `first`; a number without a word is printed without leading zeros and keeps its suffix (`007^th` gives `7th`, `21^st` gives `21st`) |
| FormatMarkers.NoCaretUnchanged | format.py:179 | Text without `^` is unchanged |
| FormatCurrency.AmountHit | format.py:184-188 | The amount rule of `£` or `$` turns the sign and its digits into the digits and ` pounds` or ` dollars`, and the scan goes on after them |
| FormatCurrency.RangeHit | format.py:185-189 | The range rule of `£` or `$` alone turns `£a-£b` into `a to b pounds` and `$a-$b` into `a to b dollars` |
| FormatCurrency.MoneyAsWrittenAmount | format.py:184-189 | As written, an amount `£d` or `$d` at the start of the text becomes `d pounds` or `d dollars`, and the rest is handled on its own |
| FormatCurrency.MoneyAsWrittenSignFree | format.py:184-189 | Text without `£` or `$` is copied, and the step goes on after it. With `MoneyAsWrittenAmount` and `MoneyAsWrittenBareSign` this reads left to right any text in which no `$`, with or without digits after it, is directly followed by `£` |
| FormatCurrency.MoneyAsWrittenBareSign | format.py:184-189 | As written, a `£` or `$` that no digit follows stays as it is, and the rest is handled on its own (for `$`, when `£` does not follow either) |
| FormatCurrency.DollarBeforePound | format.py:184-188 | As written, `$£d` followed by text without a sign or a leading digit reads `d dollars pounds` and that text |
| FormatCurrency.MoneyAsWrittenRange | format.py:184-189 | As written, `£a-£b` becomes `a pounds-b pounds` and `$a-$b` becomes `a dollars-b dollars`, because each amount rule runs before its range rule |
| FormatCurrency.MoneyRange | format.py:184-189 | With each range rule first, `£a-£b` becomes `a to b pounds` and `$a-$b` becomes `a to b dollars` |
| FormatCurrency.NoDigitCurrencyUnchanged | format.py:181-201 | Text without digits is unchanged, in either rule order |
| FormatCurrency.NumbersAndTimesKeepDigits | format.py:192-199 | The percent and time rules keep every digit, each as often as before |
| FormatCurrency.CurrencyKeepsDigits | format.py:181-201 | The whole step keeps every digit, each as often as before, in either rule order |
| FormatProfanity.CensorProfanity | format.py:203-219 | The loop applies the censor entries in table order, each `\b<word>\b` ignoring case, giving `HandleProfanityAsWritten` |
| FormatProfanity.AsWrittenMissesWholeWord | format.py:206-217 | As written, a word ending in `*` is not replaced unless a word character follows it |
| FormatProfanity.AsWrittenCutsLongerWord | format.py:206-217 | As written, `f***` followed by letters is replaced on its own, cutting the longer word; with the corrected ending it is not |
| FormatProfanity.AsWrittenShadowed | format.py:206-208 | As written, wherever `f***ing` or `f***ed` matches, `f***` matches first |
| FormatProfanity.WordEndMatchesWholeWord | format.py:206-217 | With the corrected ending, a whole censored word is replaced |
| FormatProfanity.EndingsAgreeOnLetters | format.py:206-217 | For words ending in a letter, `\b` and the corrected ending agree |
| FormatProfanity.WordEndSeparates | format.py:206-208 | With the corrected ending, `f***` never matches where `f***ing` or `f***ed` does |
| FormatProfanity.AhCensoredInAnyCase | format.py:213-217 | `AH`, `Ah` or `ah` as a whole word becomes `asshole` |
| FormatProfanity.NoStarOnlyAh | format.py:205-217 | Text without `*` is changed only by the `AH` entry |
| FormatProfanity.WholeWordAsWritten | format.py:206 | As written, the text `f***` (any case) is left uncensored |
| FormatProfanity.WholeWord | format.py:206 | With the corrected ending, `f***` becomes `f word` |
| FormatPunctuation.RunsOfCollapse | format.py:224-230 | After collapsing, no run of the mark reaches the pattern's minimum length |
| FormatPunctuation.CollapsedMarks | format.py:224-230 | After these lines the text has no `!!`, no `??` and no `....` |
| FormatPunctuation.DropSpaceBeforeMarksSound | format.py:233 | No whitespace character is directly followed by `.,!?;:` |
| FormatPunctuation.MarkLetterSound | format.py:234 | No mark is directly followed by a letter |
| FormatPunctuation.MarksNormalizedSpacing | format.py:224-234 | Both spacing facts hold after all five substitutions |
| FormatPunctuation.AddSentencePeriods | format.py:237-246 | The loop gives the `.`-split pieces, each fixed, joined by spaces and stripped |
| FormatPunctuation.NormalizePunctuation | format.py:221-248 | `normalize_punctuation` is the five substitutions followed by the period loop |
| FormatPunctuation.FixSentencePeriod | format.py:239-244 | A piece has a period, at its end, exactly when it is non-empty, has more than three words and does not end in `!` or `?` |
| FormatPunctuation.SentencePeriods | format.py:237-246 | The result is stripped, and its number of periods is the number of `.`-split pieces that qualify for one |
| FormatPauses.AddReadingPauses | format.py:250-264 | The loop applies each phrase rule in order, always adding the comma, then the `So` rule, giving `ReadingPausesAsWritten` |
| FormatPauses.PausesOnlyAddCommas | format.py:250-264 | Adding pauses changes only letters and commas; every other character occurs as often as before |
| FormatPauses.SecondCommaAsWritten | format.py:258-259 | As written, `However,` in any case becomes `However,,` |
| FormatPauses.NoSecondComma | format.py:258-259 | With the corrected rule, `However,` is unchanged |
| SentenceBreaks.FindFirst | format.py:281-282 | `find` gives the first occurrence, and fails only when there is none |
| SentenceBreaks.BreakLongSentence | format.py:277-285 | The loop body gives the piece cut at the first break point that applies |
| SentenceBreaks.ImproveSentenceChange | format.py:277-285 | A piece is rewritten exactly when a break point applies, and then grows by one character |
| FormatStructure.SplitMarksShape | format.py:269 | The split alternates mark-free pieces with single `.`, `!` or `?` pieces |
| FormatStructure.JoinSplitMarks | format.py:269 | Joining the split with `''` gives back the text |
| FormatStructure.ImproveSentenceStructure | format.py:266-289 | The index-stepping loop pairs each sentence piece (after the loop body) with its mark and joins them |
| FormatStructure.ImproveSentenceStructureChange | format.py:266-289 | The result is the input exactly when no piece is rewritten, and is one character longer per rewritten piece |
| FormatStructure.ShortTextUnchanged | format.py:266-289 | A text of at most 200 characters is unchanged |
| FormatWhitespace.CleanWhitespaceShape | format.py:291-302 | `clean_whitespace` equals one collapse followed by one strip: the line step and the newline rule only strip |
| FormatWhitespace.LaterStepsOnlyStrip | format.py:297-302 | On single-spaced text, the line step and the newline rule change nothing that the final strip does not |
| FormatWhitespace.CleanWhitespaceClean | format.py:291-302 | The result has no newline, no two whitespace characters in a row and none at either end |
| FormatWhitespace.WordsOfCleanWhitespace | format.py:291-302 | The whitespace-split words are the input's words |
| FormatWhitespace.CleanWhitespaceFixedPoints | format.py:291-302 | The fixed points are exactly the single-spaced, stripped texts |
| FormatWhitespace.CleanWhitespaceIdempotent | format.py:291-302 | `clean_whitespace` is idempotent |
| FormatPipeline.FormatTextForTts | format.py:304-352 | Non-strings give `""`; strings go through the program's ten steps in order (currency, profanity and pauses as written) and, with context words, the quote rule |
| FormatPipeline.TextForTts | format.py:304-352 | A value that is not a string gives `""`; every result is one line; without context words it is single-spaced and stripped |
| FormatPipeline.QuotedSpan | format.py:349-350 | `"x"` is read as `quote x end quote`, with `x` unchanged |
| FormatPipeline.QuoteFreeUnchanged | format.py:350 | Text without `"` is unchanged by the quote rule |
| FormatPipeline.PlainResultClean | format.py:304-346 | Without context words the result is one line, single-spaced and stripped, for the steps as written and for the corrected steps |
| FormatPipeline.ResultOneLine | format.py:304-352 | With or without context words, in either version, the result has no newline |
| FormatPipeline.ContextWordsNeedQuotes | format.py:348-350 | In either version, context words change nothing when the formatted text has no `"` |
| FormatPipeline.WithSpoken | format.py:364-376 | A non-dict is returned as it is; a dict keeps its keys and values and gains `_tts` keys exactly for the keys present |
| FormatPipeline.RedditPostForTts | format.py:354-376 | `format_reddit_post_for_tts` keeps every other key and value, and adds `submission_post_tts`/`submission_title_tts` exactly when the source key exists, formatted by the program's steps with context words |
| FormatPipeline.RedditPostIdempotent | format.py:354-376 | Formatting a formatted record again, with the program's steps, gives the same record |
| RedditScrape.OldPosts | reddit.py:15-23 | `old_posts` is `[]` for a missing file, a whitespace-only file or undecodable JSON; otherwise it is the decoded value |
| RedditScrape.ExistingIds | reddit.py:25 | `existing_ids` holds exactly the `id` of each saved post, or `None` for a post without one |
| RedditScrape.Record | reddit.py:42-47 | A record has exactly the keys `id`, `name`, `submission_title` and `submission_post`, taken from the submission |
| RedditScrape.SelectNewPosts | reddit.py:27-53 | The loop examines a prefix of the listing, and the new posts are the records kept from it, in order. It stops early only right after reaching `target_count`. `len(new_posts) <= max(target_count, 1)` and `len(new_posts) <= processed` |
| RedditScrape.KeptLength | reddit.py:28-49 | At most one record per examined submission |
| RedditScrape.KeptFrom | reddit.py:31-49 | Every record comes from a submission that was not skipped |
| RedditScrape.NewPostsFiltered | reddit.py:31-47 | No new post has a saved id or a missing or moderator author, and each has exactly the four record keys |
| RedditScrape.KeptAppend | reddit.py:29-49 | Selection works one submission at a time, so listing order is kept |
| RedditScrape.RepeatedSubmissionKeptTwice | reddit.py:25-33 | `existing_ids` is not updated in the loop, so a submission listed twice is added twice |
| RedditScrape.ScrapeReddit | reddit.py:6-55 | A saved value that is not a list of dicts, or a saved `id` that is a list or a dict (unhashable), raises. Otherwise `all_posts` is the saved posts, unchanged, followed by the new records; at most `max(target_count, 1)` are new; `processed` is the whole listing unless the walk broke right after the record that reached `target_count` |
| UploadNames.SafeNameChars | upload_to_youtube.py:55-56 | `safe_name` output holds only `[A-Za-z0-9_.-]` |
| UploadNames.SafeNameRun | upload_to_youtube.py:55-56 | Allowed characters stay in order, and each maximal run of other characters becomes one `_` |
| UploadNames.SafeNameAppend | upload_to_youtube.py:55-56 | A cut after an allowed character splits the result likewise |
| UploadNames.SafeNameFixedPoints | upload_to_youtube.py:55-56 | A name is its own safe name exactly when all its characters are allowed |
| UploadNames.SafeNameIdempotent | upload_to_youtube.py:55-56 | `safe_name` is idempotent |
| UploadNames.StemOf | upload_to_youtube.py:89 | The stem of `base.ext` is `base` when `ext` has no dot and `base` is not only dots |
| UploadNames.ParsePartOf | upload_to_youtube.py:91 | `key_pt<digits>` (optionally ending in a newline, as `$` allows) parses to that key and those digits |
| UploadNames.ParsePartShape | upload_to_youtube.py:91 | A parsed stem is exactly its key, `_pt` and its digits, optionally ending in a newline |
| UploadNames.PartFileTitle | upload_to_youtube.py:89-98 | `dir/key_ptN.ext` is titled `"{title} - Part {n}"` when the map has a non-empty title for `key`, otherwise `"{key} - Part {n}"` |
| UploadNames.PartNumberWithoutZeros | upload_to_youtube.py:94 | The part number is printed without leading zeros |
| UploadNames.OtherFileTitle | upload_to_youtube.py:99-101 | A non-part stem is titled by its non-empty map entry, else by itself |
| UploadNames.SentTitle | upload_to_youtube.py:141 | The title sent is at most 100 characters long and is a prefix of the inferred title; shorter titles pass unchanged |
| UploadTitles.TitleMap | upload_to_youtube.py:66-72 | A missing file, an unreadable file or a value that is not a list gives the empty map |
| UploadTitles.LoadTitleMap | upload_to_youtube.py:59-80 | The loop builds the map from the items up to the first non-dict, keeping what it has collected |
| UploadTitles.TitleMapKeysSafe | upload_to_youtube.py:77 | Every key is a safe name |
| UploadTitles.CollectedFrom | upload_to_youtube.py:73-77 | Every key comes from an item with a truthy name and title |
| UploadTitles.CollectedLastWins | upload_to_youtube.py:73-77 | The last item for a key gives it its title |
| UploadTitles.StopsAtFirstNonDict | upload_to_youtube.py:73-79 | Items after the first non-dict are ignored |
| UploadMain.SortStringsSorted | upload_to_youtube.py:178 | `sorted` returns the same files, in order |
| UploadMain.SortStringsDistinct | upload_to_youtube.py:178 | Sorting a list without repeats gives a list without repeats |
| UploadMain.UploadResult | upload_to_youtube.py:155-173 | The response id is returned when it is truthy, and `None` when it is missing, on `HttpError` and on any other exception inside the `try` |
| UploadMain.UploadBody | upload_to_youtube.py:139-151 | The request body has `snippet` and `status`, and its title is a prefix of the given title, at most 100 characters |
| UploadMain.Uploader.UploadAll | upload_to_youtube.py:176-211 | With no match, nothing changes and no authentication happens. Otherwise authentication happens, and the markers and uploads are those of the loop over the sorted files, where each file's reply is `upload_video` with the title inferred from the title map |
| UploadMain.Uploader.UploadFiles | upload_to_youtube.py:189-211 | The loop skips a file that is not regular or already has a marker. Otherwise it uploads the file, and writes the marker when an id came back. Nothing else changes |
| UploadMain.RunKeepsMarkers | upload_to_youtube.py:189-211 | Existing markers are never removed or rewritten |
| UploadMain.RunSendsUnmarked | upload_to_youtube.py:189-207 | Only listed regular files without an existing marker are uploaded |
| UploadMain.RunNewMarkers | upload_to_youtube.py:199-211 | A new marker belongs to an uploaded file whose upload returned an id, and holds that id |
| UploadMain.RunSendsInOrder | upload_to_youtube.py:178-207 | Files are uploaded in sorted order |
| UploadMain.RunSendsOnce | upload_to_youtube.py:178-207 | When the glob lists each path once, no file is uploaded twice |
| UploadMain.MainPromises | upload_to_youtube.py:178-211 | Over a glob result without repeats: uploads are in sorted order and without repeats; each uploaded file was listed, is a regular file and had no marker; existing markers are kept unchanged |

## Findings

| source | as written | input that shows it | evidently intended | confidence | as-written member | corrected member |
|---|---|---|---|---|---|---|
| format.py:184-189 | The single-amount rules run before the range rules, so the range rules never match | `£5-£10` gives `5 pounds-10 pounds`; `$5-$10` gives `5 dollars-10 dollars` | `5 to 10 pounds`; `5 to 10 dollars` | high, not executed | FormatCurrency.MoneyAsWrittenRange | FormatCurrency.MoneyRange |
| format.py:206-217 | `\b` after a final `*` needs a word character next. So `f***`, `s***` and `a**` alone are never censored, `f***ing` is cut to `f wording`, and the `f***ing`/`f***ed` entries never apply | `f***` gives `f***` | `f word` | high, not executed | FormatProfanity.WholeWordAsWritten | FormatProfanity.WholeWord |
| format.py:258-259 | A comma is added after a transition phrase even when one is already there | `However,` gives `However,,` | `However,` | medium, not executed | FormatPauses.SecondCommaAsWritten | FormatPauses.NoSecondComma |

The pipeline (`FormatPipeline.FormatTextForTts` and
`FormatPipeline.TextForTts`) runs the steps as written:
`FormatCurrency.CurrencyAndNumbersAsWritten`,
`FormatProfanity.HandleProfanityAsWritten` and
`FormatPauses.ReadingPausesAsWritten`. The same chain with
`CurrencyAndNumbers`, `HandleProfanity` and `ReadingPauses` in their place is
`FormatPipeline.Formatted` with `Corrected`, and the pipeline lemmas are
stated for both versions.

## Left out

- `editor.py` hands captioning, encoding and segmenting to moviepy and
  whisper. It is not part of this model.
- `tts.py` (an edge_tts network call), `upload.py`, `get_authenticated_service`
  (OAuth and Google API wrappers) and `main.py` (orchestration and JSON file
  I/O) are not part of this model.
- FormatEncoding.FixEncodingIssues: `unicodedata.normalize('NFKD', …)` is a
  Unicode-table call. It is the parameter `nfkd`, and nothing is proved about it.
- Full Unicode semantics of `\s`, `\w`, `\d`, `int()`, `isalnum`, `upper`,
  `lower` and `capitalize` are left out; the model uses ASCII classes. Python
  also counts other Unicode decimal digits as `\d` and parses them with
  `int()`; here a digit is `0`-`9` only.
- RedditScrape.ScrapeReddit: praw is not modelled. The listing is an input
  sequence, and "at most 100" is not enforced. The author test compares names
  exactly; praw's case-insensitive `Redditor` equality is not modelled. A
  `UnicodeDecodeError` while reading `posts.json` is not modelled. The final
  `json.dump` and the progress prints are left out; the written list is the
  result.
- UploadTitles.LoadTitleMap: reading and decoding `posts.json` is an input
  (`PostsFile`). `str()` of a list or dict is the parameter `repr`. Floats in
  the JSON are not modelled.
- UploadMain.UploadResult: the YouTube API is an oracle from file path and
  request body to outcome. The chunked upload loop and its progress
  percentage are left out. `MediaFileUpload` (upload_to_youtube.py:153) runs
  before the `try`, so a failure there, such as a file deleted after the
  glob, ends `main` with the remaining files not uploaded. The model has no
  such outcome: every upload call returns an id or `None`.
- UploadMain.Uploader.UploadAll: `glob` is an input sequence, and `os.path.isfile`
  is an input set. When the marker write raises after `open` created the
  file, the marker holds the empty string (`MarkerText`). Other write
  failures of the marker file are not modelled.
- FormatCurrency.MoneyAsWrittenAmount: a `$`, with or without digits after
  it, directly followed by `£` is excluded, here and in
  `MoneyAsWrittenBareSign`. There the pound rules run first and can put
  digits right after the `$`: `$5£6` reads `56 dollars pounds`, and `$£5`
  reads `5 dollars pounds` (`DollarBeforePound`). No lemma gives the general
  result for such text.
- FormatCurrency.CurrencyAndNumbers: the time rules are modelled only as far
  as the digit-preservation and no-digit facts. No lemma states their exact
  output.
