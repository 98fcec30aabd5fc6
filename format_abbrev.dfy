/**
 * `expand_abbreviations`: the text is split into words at whitespace, each
 * word whose letters, digits and underscores, upper-cased, form a key of the
 * abbreviation table is replaced by the expansion followed by the word's
 * non-alphanumeric characters, and the words are joined with single spaces.
 */
module FormatAbbrev {
  import opened Text

  predicate NotAlnum(c: char) { !IsAlnum(c) }

  /** `re.sub(r'[^\w]', '', word).upper()`: the word's letters, digits and underscores, upper-cased. */
  function CleanKey(word: string): string {
    UpperStr(Filter(word, IsWordChar))
  }

  /** `''.join(c for c in word if not c.isalnum())` */
  function Punctuation(word: string): string {
    Filter(word, NotAlnum)
  }

  /** What one word becomes with the abbreviation table `table`. */
  function ExpandWord(table: map<string, string>, word: string): string {
    var key := CleanKey(word);
    if key in table then table[key] + Punctuation(word) else word
  }

  /** Every word expanded, in order. */
  function ExpandWords(table: map<string, string>, words: seq<string>): (r: seq<string>)
    ensures |r| == |words|
  {
    if words == [] then [] else ExpandWords(table, words[..|words| - 1]) + [ExpandWord(table, words[|words| - 1])]
  }

  /** The `k`-th word of the result is the `k`-th word expanded. */
  lemma {:induction false} ExpandWordsAt(table: map<string, string>, words: seq<string>)
    ensures forall k :: 0 <= k < |words| ==> ExpandWords(table, words)[k] == ExpandWord(table, words[k])
  {
    if words != [] {
      ExpandWordsAt(table, words[..|words| - 1]);
    }
  }

  /** The loop of `expand_abbreviations`, for any table; the source uses `Abbreviations`. */
  method ExpandAbbreviations(table: map<string, string>, text: string) returns (r: string)
    ensures r == Join(ExpandWords(table, Words(text)), " ")
  {
    var words := Words(text);
    var expanded: seq<string> := [];
    for i := 0 to |words|
      invariant expanded == ExpandWords(table, words[..i])
    {
      var word := words[i];
      var clean := CleanKey(word);
      assert words[..i + 1][..i] == words[..i];
      if clean in table {
        var punctuation := Punctuation(word);
        expanded := expanded + [table[clean] + punctuation];
      } else {
        expanded := expanded + [word];
      }
    }
    assert words[..|words|] == words;
    r := Join(expanded, " ");
  }
  /** A key is made of upper-case letters, digits and underscores. */
  lemma CleanKeyChars(word: string)
    ensures var key := CleanKey(word); forall k :: 0 <= k < |key| ==> IsWordChar(key[k]) && !IsLower(key[k])
  {
  }

  /** Upper-casing undoes lower-casing and is idempotent. */
  lemma UpperOfCase(f: string)
    ensures UpperStr(LowerStr(f)) == UpperStr(f)
    ensures UpperStr(UpperStr(f)) == UpperStr(f)
  {
    forall k | 0 <= k < |f| ensures UpperStr(LowerStr(f))[k] == UpperStr(f)[k] && UpperStr(UpperStr(f))[k] == UpperStr(f)[k] {
      assert LowerStr(f)[k] == Lower(f[k]);
    }
  }

  /** Lower-casing a word lower-cases its letters, digits and underscores. */
  lemma {:induction false} FilterLower(w: string)
    ensures Filter(LowerStr(w), IsWordChar) == LowerStr(Filter(w, IsWordChar))
  {
    if w != "" {
      FilterLower(w[1..]);
      assert LowerStr(w) == [Lower(w[0])] + LowerStr(w[1..]);
      assert IsWordChar(Lower(w[0])) == IsWordChar(w[0]);
    }
  }

  lemma {:induction false} FilterUpper(w: string)
    ensures Filter(UpperStr(w), IsWordChar) == UpperStr(Filter(w, IsWordChar))
  {
    if w != "" {
      FilterUpper(w[1..]);
      assert UpperStr(w) == [Upper(w[0])] + UpperStr(w[1..]);
      assert IsWordChar(Upper(w[0])) == IsWordChar(w[0]);
    }
  }

  /** Lower-casing or upper-casing a word leaves its punctuation alone. */
  lemma {:induction false} PunctuationOfCase(w: string)
    ensures Punctuation(LowerStr(w)) == Punctuation(w)
    ensures Punctuation(UpperStr(w)) == Punctuation(w)
  {
    if w != "" {
      PunctuationOfCase(w[1..]);
      assert LowerStr(w)[1..] == LowerStr(w[1..]);
      assert UpperStr(w)[1..] == UpperStr(w[1..]);
    }
  }

  /** The key ignores case: `so`, `So` and `SO` have the same key. */
  lemma KeyIgnoresCase(w: string)
    ensures CleanKey(LowerStr(w)) == CleanKey(w)
    ensures CleanKey(UpperStr(w)) == CleanKey(w)
  {
    FilterLower(w);
    FilterUpper(w);
    UpperOfCase(Filter(w, IsWordChar));
  }

  /** A word and its lower-cased and upper-cased forms expand alike when their key is in the table. */
  lemma ExpansionIgnoresCase(table: map<string, string>, w: string)
    requires CleanKey(w) in table
    ensures ExpandWord(table, LowerStr(w)) == ExpandWord(table, w)
    ensures ExpandWord(table, UpperStr(w)) == ExpandWord(table, w)
  {
    KeyIgnoresCase(w);
    PunctuationOfCase(w);
  }

  /** The punctuation carried over is exactly the word's non-alphanumeric characters. */
  lemma {:induction false} PunctuationCount(w: string, c: char)
    ensures multiset(Punctuation(w))[c] == (if IsAlnum(c) then 0 else multiset(w)[c])
  {
    if w != "" {
      PunctuationCount(w[1..], c);
      assert w == [w[0]] + w[1..];
    }
  }

  /** Matching ignores case and keeps the punctuation: `so,` reads as the entry for `SO` followed by `,`. */
  lemma ExpansionExample(table: map<string, string>)
    requires "SO" in table
    ensures ExpandWord(table, "so,") == table["SO"] + ","
  {
    assert CleanKey("so,") == "SO";
    assert Punctuation("so,") == ",";
  }

  /** When no word has its key in the table, the result is the words joined by single spaces. */
  lemma NoKnownWordJoinsWords(table: map<string, string>, words: seq<string>)
    requires forall k :: 0 <= k < |words| ==> CleanKey(words[k]) !in table
    ensures ExpandWords(table, words) == words
  {
    ExpandWordsAt(table, words);
  }

}

/** The abbreviation table of `expand_abbreviations`. */
module AbbrevTable {
  import opened FormatAbbrev
  import opened Text

  /** Primary AITA/Judgment Abbreviations. */
  const Judgments: map<string, string> := map[
    "AITA" := "Am I The Asshole",
    "AITAH" := "Am I The Asshole Here",
    "WIBTA" := "Would I Be The Asshole",
    "WIBTAH" := "Would I Be The Asshole Here",
    "NTA" := "Not The Asshole",
    "YTA" := "You're The Asshole",
    "ESH" := "Everyone Sucks Here",
    "NAH" := "No Assholes Here",
    "INFO" := "Need More Information"
  ]

  /** Family Relationships. */
  const Family: map<string, string> := map[
    "SO" := "Significant Other",
    "BF" := "Boyfriend",
    "GF" := "Girlfriend",
    "EX" := "Ex",
    "DH" := "Dear Husband",
    "DW" := "Dear Wife",
    "MIL" := "Mother-In-Law",
    "FIL" := "Father-In-Law",
    "SIL" := "Sister-In-Law",
    "BIL" := "Brother-In-Law",
    "DIL" := "Daughter-In-Law",
    "LDR" := "Long Distance Relationship",
    "BD" := "Baby Daddy",
    "BM" := "Baby Mama"
  ]

  /** Common Phrases and Situations. */
  const Phrases: map<string, string> := map[
    "WTF" := "What The F word",
    "TBH" := "To Be Honest",
    "FWIW" := "For What It's Worth",
    "IMHO" := "In My Humble Opinion",
    "IMO" := "In My Opinion",
    "FYI" := "For Your Information",
    "BTW" := "By The Way",
    "AFAIK" := "As Far As I Know",
    "IIRC" := "If I Recall Correctly",
    "ETA" := "Edited To Add",
    "TLDR" := "Too Long Didn't Read",
    "TL;DR" := "Too Long Didn't Read"
  ]

  /** Emotions and Reactions. */
  const Reactions: map<string, string> := map[
    "SMH" := "Shaking My Head",
    "FML" := "F My Life",
    "JFC" := "Jesus F-ing Christ",
    "OMG" := "Oh My God",
    "WTH" := "What The Hell",
    "IDK" := "I Don't Know",
    "IDC" := "I Don't Care",
    "IDGAF" := "I Don't Give A F word"
  ]

  /** Relationship/Social Situations. */
  const Relationships: map<string, string> := map[
    "NC" := "No Contact",
    "LC" := "Low Contact",
    "VLC" := "Very Low Contact",
    "JNMIL" := "Just No Mother-In-Law",
    "JNFIL" := "Just No Father-In-Law",
    "STBX" := "Soon To Be Ex",
    "AP" := "Affair Partner",
    "OW" := "Other Woman",
    "OM" := "Other Man"
  ]

  /** Additional Common Ones. */
  const Others: map<string, string> := map[
    "SAHM" := "Stay At Home Mom",
    "SAHD" := "Stay At Home Dad",
    "LO" := "Little One",
    "DD" := "Dear Daughter",
    "DS" := "Dear Son",
    "DSD" := "Dear Step Daughter",
    "DSS" := "Dear Step Son",
    "SM" := "Step Mother",
    "SF" := "Step Father",
    "JK" := "Just Kidding",
    "NVM" := "Never Mind",
    "FFS" := "For F's Sake",
    "GTFO" := "Get The F Out",
    "DGAF" := "Don't Give A F word"
  ]

  /** The abbreviation table, 66 entries; the groups share no key. */
  const Abbreviations: map<string, string> := Judgments + Family + Phrases + Reactions + Relationships + Others

  /** In the program's own table, `so,` reads `Significant Other,`. */
  lemma SoExpands()
    ensures ExpandWord(Abbreviations, "so,") == "Significant Other,"
  {
    SoEntry();
    ExpansionExample(Abbreviations);
    SoSpelling();
  }

  /** An entry of the second of six tables that the later four lack survives their union. */
  lemma UnionKeeps(a: map<string, string>, b: map<string, string>, c: map<string, string>,
                   d: map<string, string>, e: map<string, string>, f: map<string, string>, k: string)
    requires k in b && k !in c && k !in d && k !in e && k !in f
    ensures k in a + b + c + d + e + f && (a + b + c + d + e + f)[k] == b[k]
  {
  }

  lemma SoInFamily()
    ensures "SO" in Family && Family["SO"] == "Significant Other"
  {
  }

  lemma SoNotLater()
    ensures "SO" !in Phrases && "SO" !in Reactions && "SO" !in Relationships && "SO" !in Others
  {
  }

  lemma SoEntry()
    ensures "SO" in Abbreviations && Abbreviations["SO"] == "Significant Other"
  {
    SoInFamily();
    SoNotLater();
    UnionKeeps(Judgments, Family, Phrases, Reactions, Relationships, Others, "SO");
  }

  lemma SoSpelling()
    ensures "Significant Other" + "," == "Significant Other,"
  {
  }

  /** A key never contains `;`, so the entry `TL;DR` is never used. */
  lemma TlDrNeverUsed(w: string)
    ensures ExpandWord(Abbreviations, w) == ExpandWord(Abbreviations - {"TL;DR"}, w)
  {
    var key := CleanKey(w);
    CleanKeyChars(w);
    assert key != "TL;DR" by {
      if |key| == 5 {
        assert IsWordChar(key[2]);
      }
    }
  }
}
