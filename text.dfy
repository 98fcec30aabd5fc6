/**
 * Character classes and string primitives of Python that the core relies on:
 * `\s`, `\w`, `str.isalnum`, `str.upper`, `str.capitalize`, `str.strip`,
 * `str.split()`, `str.split(sep)`, `sep.join`, `int(digits)` and `str(int)`.
 * Every class is restricted to ASCII (see README).
 */
module Text {

  /** Python's whitespace in the ASCII range: space, \t \n \v \f \r and \x1c-\x1f. */
  predicate IsSpace(c: char) {
    c == ' ' || ('\t' <= c <= '\r') || ('\U{001C}' <= c <= '\U{001F}')
  }

  predicate IsDigit(c: char) { '0' <= c <= '9' }
  predicate IsUpper(c: char) { 'A' <= c <= 'Z' }
  predicate IsLower(c: char) { 'a' <= c <= 'z' }
  predicate IsAlpha(c: char) { IsUpper(c) || IsLower(c) }
  predicate IsAlnum(c: char) { IsAlpha(c) || IsDigit(c) }

  /** `\w`: letters, digits and the underscore. */
  predicate IsWordChar(c: char) { IsAlnum(c) || c == '_' }

  /** A word character at position `j` of `s`. */
  predicate WordAt(s: string, j: nat) { j < |s| && IsWordChar(s[j]) }

  /** A word character just before position `j` of `s`. */
  predicate WordBefore(s: string, j: nat) { 0 < j <= |s| && IsWordChar(s[j - 1]) }

  /** `\b` at position `j`: a word character on exactly one side. */
  predicate Boundary(s: string, j: nat) { WordBefore(s, j) != WordAt(s, j) }

  /** `pat` at position `i` of `s`, ignoring case (`re.IGNORECASE`). */
  predicate FoldsTo(s: string, i: nat, pat: string) {
    i + |pat| <= |s| && forall k :: 0 <= k < |pat| ==> Lower(s[i + k]) == Lower(pat[k])
  }

  /** Matching ignores case, and so keeps whether each character is a word character. */
  lemma FoldsToWordChars(s: string, i: nat, pat: string, k: nat)
    requires FoldsTo(s, i, pat) && k < |pat|
    ensures IsWordChar(s[i + k]) == IsWordChar(pat[k])
  {
    assert Lower(s[i + k]) == Lower(pat[k]);
  }

  function Upper(c: char): (u: char)
    ensures IsLower(c) ==> IsUpper(u)
    ensures !IsLower(c) ==> u == c
  {
    if IsLower(c) then (c as int - 32) as char else c
  }

  function Lower(c: char): (l: char)
    ensures IsUpper(c) ==> IsLower(l)
    ensures !IsUpper(c) ==> l == c
  {
    if IsUpper(c) then (c as int + 32) as char else c
  }

  /** `str.upper()` */
  function UpperStr(s: string): (r: string)
    ensures |r| == |s|
    ensures forall k :: 0 <= k < |s| ==> r[k] == Upper(s[k])
  {
    if s == "" then "" else [Upper(s[0])] + UpperStr(s[1..])
  }

  /** `str.lower()` */
  function LowerStr(s: string): (r: string)
    ensures |r| == |s|
    ensures forall k :: 0 <= k < |s| ==> r[k] == Lower(s[k])
  {
    if s == "" then "" else [Lower(s[0])] + LowerStr(s[1..])
  }

  /** `str.capitalize()`: the first character upper-cased, every other one lower-cased. */
  function Capitalize(s: string): (r: string)
    ensures |r| == |s|
  {
    seq(|s|, k requires 0 <= k < |s| => if k == 0 then Upper(s[0]) else Lower(s[k]))
  }

  predicate NoSpace(s: string) { forall k :: 0 <= k < |s| ==> !IsSpace(s[k]) }
  predicate AllSpace(s: string) { forall k :: 0 <= k < |s| ==> IsSpace(s[k]) }
  predicate AllDigits(s: string) { forall k :: 0 <= k < |s| ==> IsDigit(s[k]) }

  /** Neither the first nor the last character is whitespace. */
  predicate Trimmed(s: string) { s == "" || (!IsSpace(s[0]) && !IsSpace(s[|s| - 1])) }

  /** The characters of `s` that satisfy `p`, in order (a generator expression joined with `''`). */
  function Filter(s: string, p: char -> bool): (r: string)
    ensures |r| <= |s|
    ensures forall k :: 0 <= k < |r| ==> p(r[k])
  {
    if |s| == 0 then "" else (if p(s[0]) then [s[0]] else "") + Filter(s[1..], p)
  }

  // ---------------------------------------------------------------- strip

  /** Index just past the last non-whitespace character of `s[a..j]`, or `a` when there is none. */
  function TrimEnd(s: string, a: nat, j: nat): (b: nat)
    requires a <= j <= |s|
    ensures a <= b <= j
    decreases j
  {
    if j == a || !IsSpace(s[j - 1]) then j else TrimEnd(s, a, j - 1)
  }

  /** `str.strip()`: the text between the leading and the trailing whitespace. */
  function Strip(s: string): string {
    var a := RunFrom(s, 0, IsSpace);
    s[a..TrimEnd(s, a, |s|)]
  }

  /** A slice is its two halves at `j`. */
  lemma SliceSplit(s: string, i: nat, j: nat)
    requires i <= j <= |s|
    ensures s[i..] == s[i..j] + s[j..]
  {
  }

  /** A prefix one longer is the shorter prefix and the next element. */
  lemma PrefixSnoc<T>(xs: seq<T>, i: nat)
    requires i < |xs|
    ensures xs[..i + 1] == xs[..i] + [xs[i]]
  {
  }

  /** Appending after a suffix is appending to the whole. */
  lemma SuffixSnoc<T>(xs: seq<T>, n: nat, x: T)
    requires n <= |xs|
    ensures (xs + [x])[n..] == xs[n..] + [x]
  {
  }

  /** Concatenation is associative. */
  lemma ConcatAssoc(a: string, b: string, c: string)
    ensures a + b + c == a + (b + c)
  {
  }

  lemma {:induction false} TrimEndSpaces(s: string, a: nat, j: nat)
    requires a <= j <= |s|
    ensures forall k :: TrimEnd(s, a, j) <= k < j ==> IsSpace(s[k])
    ensures TrimEnd(s, a, j) == a || !IsSpace(s[TrimEnd(s, a, j) - 1])
    decreases j
  {
    if j > a && IsSpace(s[j - 1]) {
      TrimEndSpaces(s, a, j - 1);
    }
  }

  /** `strip` removes whitespace only, from both ends, and leaves none there. */
  lemma StripParts(s: string) returns (a: nat, b: nat)
    ensures a <= b <= |s| && Strip(s) == s[a..b]
    ensures AllSpace(s[..a]) && AllSpace(s[b..])
    ensures Trimmed(Strip(s))
  {
    a := RunFrom(s, 0, IsSpace);
    b := TrimEnd(s, a, |s|);
    RunFromMatches(s, 0, IsSpace);
    TrimEndSpaces(s, a, |s|);
    assert forall k :: 0 <= k < a ==> s[..a][k] == s[k];
    assert forall k :: 0 <= k < |s| - b ==> s[b..][k] == s[b + k];
  }

  /** `strip` gives the empty string exactly for all-whitespace text. */
  lemma StripEmpty(s: string)
    ensures Strip(s) == "" <==> AllSpace(s)
  {
    var a, b := StripParts(s);
    if Strip(s) == "" {
      assert s == s[..a] + s[b..];
      assert forall k :: 0 <= k < a ==> s[k] == s[..a][k];
      assert forall k :: a <= k < |s| ==> s[k] == s[b..][k - a];
    } else {
      assert a < |s| && !IsSpace(s[a]);
    }
  }

  /** Text without whitespace at either end is its own `strip`. */
  lemma StripTrimmed(s: string)
    requires Trimmed(s)
    ensures Strip(s) == s
  {
    if |s| > 0 {
      assert RunFrom(s, 0, IsSpace) == 0;
      assert TrimEnd(s, 0, |s|) == |s|;
    }
  }

  lemma StripIdempotent(s: string)
    ensures Strip(Strip(s)) == Strip(s)
  {
    var _, _ := StripParts(s);
    StripTrimmed(Strip(s));
  }

  /** `strip` removes whitespace only, so it keeps every other character. */
  lemma StripKeepsCount(s: string, c: char)
    requires !IsSpace(c)
    ensures multiset(Strip(s))[c] == multiset(s)[c]
  {
    var a, b := StripParts(s);
    assert s == s[..a] + s[a..b] + s[b..];
    assert c !in s[..a] by {
      forall k | 0 <= k < a ensures s[..a][k] != c {
        assert IsSpace(s[..a][k]);
      }
    }
    assert c !in s[b..] by {
      forall k | 0 <= k < |s| - b ensures s[b..][k] != c {
        assert IsSpace(s[b..][k]);
      }
    }
  }

  // ---------------------------------------------------------------- join and split

  /** `sep.join(parts)` */
  function Join(parts: seq<string>, sep: string): (r: string)
    ensures parts == [] ==> r == ""
    ensures |parts| == 1 ==> r == parts[0]
  {
    if parts == [] then ""
    else if |parts| == 1 then parts[0]
    else parts[0] + sep + Join(parts[1..], sep)
  }

  /** Length of the longest run of characters satisfying `p` that starts at index `i` of `s` (a greedy `[...]*`). */
  function RunFrom(s: string, i: nat, p: char -> bool): (n: nat)
    requires i <= |s|
    ensures i + n <= |s|
    ensures i + n == |s| || !p(s[i + n])
    decreases |s| - i
  {
    if i == |s| || !p(s[i]) then 0 else 1 + RunFrom(s, i + 1, p)
  }

  /** Every character of the run satisfies `p`. */
  lemma {:induction false} RunFromMatches(s: string, i: nat, p: char -> bool)
    requires i <= |s|
    ensures forall k :: i <= k < i + RunFrom(s, i, p) ==> p(s[k])
    decreases |s| - i
  {
    if i < |s| && p(s[i]) {
      RunFromMatches(s, i + 1, p);
    }
  }

  /** A stretch of matching characters that ends at the end of `s` or before a non-matching one is the whole run. */
  lemma {:induction false} RunFromOf(s: string, i: nat, n: nat, p: char -> bool)
    requires i + n <= |s|
    requires forall k :: i <= k < i + n ==> p(s[k])
    requires i + n == |s| || !p(s[i + n])
    ensures RunFrom(s, i, p) == n
    decreases n
  {
    if n > 0 {
      RunFromOf(s, i + 1, n - 1, p);
    }
  }

  /** A run that starts with `m` matching characters is `m` longer than the run after them. */
  lemma {:induction false} RunFromSkip(s: string, i: nat, m: nat, p: char -> bool)
    requires i + m <= |s|
    requires forall k :: i <= k < i + m ==> p(s[k])
    ensures RunFrom(s, i, p) == m + RunFrom(s, i + m, p)
    decreases m
  {
    if m > 0 {
      RunFromSkip(s, i + 1, m - 1, p);
    }
  }

  /** Runs in a suffix are runs in the whole text, shifted. */
  lemma {:induction false} RunFromShift(s: string, n: nat, i: nat, p: char -> bool)
    requires n + i <= |s|
    ensures RunFrom(s, n + i, p) == RunFrom(s[n..], i, p)
    decreases |s| - n - i
  {
    if n + i < |s| {
      assert s[n..][i] == s[n + i];
      RunFromShift(s, n, i + 1, p);
    }
  }

  /** The run at the start of `a + b`, when every character of `a` matches. */
  lemma RunFromAppend(a: string, b: string, p: char -> bool)
    requires forall k :: 0 <= k < |a| ==> p(a[k])
    ensures RunFrom(a + b, 0, p) == |a| + RunFrom(b, 0, p)
  {
    var s := a + b;
    RunFromSkip(s, 0, |a|, p);
    RunFromShift(s, |a|, 0, p);
    assert s[|a|..] == b;
  }

  /** The run at the start of `[c] + b`. */
  lemma RunFromCons(c: char, b: string, p: char -> bool)
    ensures RunFrom([c] + b, 0, p) == if p(c) then 1 + RunFrom(b, 0, p) else 0
  {
    if p(c) {
      RunFromAppend([c], b, p);
    }
  }

  /** `str.split()` with no argument: the maximal runs of non-whitespace characters. */
  function Words(s: string): (ws: seq<string>)
    ensures forall k :: 0 <= k < |ws| ==> ws[k] != "" && NoSpace(ws[k])
    ensures |s| > 0 && !IsSpace(s[0]) ==> |ws| > 0
  {
    if |s| == 0 then []
    else
      var rest := Words(s[1..]);
      if IsSpace(s[0]) then rest
      else if |s| > 1 && !IsSpace(s[1]) then [[s[0]] + rest[0]] + rest[1..]
      else [[s[0]]] + rest
  }

  /** Whitespace has no words. */
  lemma {:induction false} WordsAllSpace(s: string)
    requires AllSpace(s)
    ensures Words(s) == []
  {
    if s != "" {
      WordsAllSpace(s[1..]);
    }
  }

  /** Leading whitespace does not change the words. */
  lemma {:induction false} WordsLeadingSpace(s: string, a: nat)
    requires a <= |s| && AllSpace(s[..a])
    ensures Words(s) == Words(s[a..])
    decreases a
  {
    if a > 0 {
      assert IsSpace(s[..a][0]);
      assert s[1..][..a - 1] == s[..a][1..];
      WordsLeadingSpace(s[1..], a - 1);
      assert s[1..][a - 1..] == s[a..];
    }
  }

  /** Trailing whitespace does not change the words. */
  lemma {:induction false} WordsTrailingSpace(s: string, b: nat)
    requires b <= |s| && AllSpace(s[b..])
    ensures Words(s[..b]) == Words(s)
    decreases b
  {
    if b == 0 {
      WordsAllSpace(s);
    } else {
      var t := s[..b];
      assert t[1..] == s[1..][..b - 1];
      assert s[1..][b - 1..] == s[b..];
      WordsTrailingSpace(s[1..], b - 1);
      assert |s| > 1 && b == 1 ==> IsSpace(s[b..][0]);
    }
  }

  /** `strip` keeps every word. */
  lemma WordsOfStrip(s: string)
    ensures Words(Strip(s)) == Words(s)
  {
    var a, b := StripParts(s);
    WordsLeadingSpace(s, a);
    var t := s[a..];
    assert t[..b - a] == s[a..b];
    assert t[b - a..] == s[b..];
    WordsTrailingSpace(t, b - a);
  }

  /** `str.split(c)`: the pieces between the occurrences of `c`, empty pieces included. */
  function SplitOn(s: string, c: char): (parts: seq<string>)
    ensures |parts| >= 1
    ensures forall k :: 0 <= k < |parts| ==> c !in parts[k]
  {
    if s == "" then [""]
    else if s[0] == c then [""] + SplitOn(s[1..], c)
    else
      var rest := SplitOn(s[1..], c);
      [[s[0]] + rest[0]] + rest[1..]
  }

  /** A text without `c` is a single piece. */
  lemma {:induction false} SplitOnAbsent(s: string, c: char)
    requires c !in s
    ensures SplitOn(s, c) == [s]
  {
    if s != "" {
      assert c !in s[1..] && s[0] != c;
      SplitOnAbsent(s[1..], c);
      assert [s[0]] + s[1..] == s;
    }
  }

  /** Joining the pieces of `s.split(c)` with `c` gives `s` back. */
  lemma {:induction false} JoinSplitOn(s: string, c: char)
    ensures Join(SplitOn(s, c), [c]) == s
  {
    if s == "" {
    } else if s[0] == c {
      JoinSplitOn(s[1..], c);
    } else {
      var rest := SplitOn(s[1..], c);
      JoinSplitOn(s[1..], c);
      JoinConsFirst(rest, s[0], [c]);
    }
  }

  /** Prepending a character to the first part prepends it to the joined text. */
  lemma JoinConsFirst(parts: seq<string>, x: char, sep: string)
    requires |parts| >= 1
    ensures Join([[x] + parts[0]] + parts[1..], sep) == [x] + Join(parts, sep)
  {
    var q := [[x] + parts[0]] + parts[1..];
    if |parts| > 1 {
      assert q[1..] == parts[1..];
      calc {
        Join(q, sep);
        q[0] + sep + Join(q[1..], sep);
        ([x] + parts[0]) + sep + Join(parts[1..], sep);
        [x] + (parts[0] + sep + Join(parts[1..], sep));
      }
    }
  }

  // ---------------------------------------------------------------- numbers

  function DigitChar(d: nat): (c: char)
    requires d < 10
    ensures IsDigit(c)
  {
    ('0' as int + d) as char
  }

  function DigitValue(c: char): (d: nat)
    requires IsDigit(c)
    ensures d < 10 && DigitChar(d) == c
  {
    c as int - '0' as int
  }

  /** `int(s)` for a string of decimal digits. */
  function DigitsValue(s: string): nat
    requires AllDigits(s)
  {
    if s == "" then 0 else 10 * DigitsValue(s[..|s| - 1]) + DigitValue(s[|s| - 1])
  }

  /** `str(n)` for a non-negative integer: decimal, without leading zeros. */
  function NatToString(n: nat): (r: string)
    ensures r != "" && AllDigits(r)
    ensures |r| > 1 ==> r[0] != '0'
  {
    if n < 10 then [DigitChar(n)] else NatToString(n / 10) + [DigitChar(n % 10)]
  }

  /** `str(i)` for any integer. */
  function IntToString(i: int): string {
    if i < 0 then "-" + NatToString(-i) else NatToString(i)
  }

  lemma {:induction false} NatToStringValue(n: nat)
    ensures DigitsValue(NatToString(n)) == n
  {
    if n >= 10 {
      var p := NatToString(n / 10);
      var r := p + [DigitChar(n % 10)];
      assert r[..|r| - 1] == p;
      NatToStringValue(n / 10);
    }
  }

  lemma {:induction false} DigitsValuePositive(d: string)
    requires AllDigits(d) && d != "" && d[0] != '0'
    ensures DigitsValue(d) > 0
  {
    if |d| > 1 {
      DigitsValuePositive(d[..|d| - 1]);
    }
  }

  /** A digit string without leading zeros is the decimal of its own value. */
  lemma {:induction false} DigitsValueString(d: string)
    requires AllDigits(d) && d != ""
    requires |d| > 1 ==> d[0] != '0'
    ensures NatToString(DigitsValue(d)) == d
  {
    if |d| > 1 {
      var p := d[..|d| - 1];
      var c := d[|d| - 1];
      DigitsValuePositive(p);
      DigitsValueString(p);
      var v := DigitsValue(d);
      LastDigit(DigitsValue(p), DigitValue(c));
      assert NatToString(v) == NatToString(v / 10) + [DigitChar(v % 10)];
      assert d == p + [c];
    }
  }

  /** The decimal number `10 * q + r` drops its last digit `r` under `/ 10`. */
  lemma LastDigit(q: nat, r: nat)
    requires 0 < q && r < 10
    ensures (10 * q + r) / 10 == q && (10 * q + r) % 10 == r && 10 * q + r >= 10
  {
  }
}
