/**
 * Python's `re.sub(pattern, repl, text)` and `text.replace(pat, repl)` both scan
 * the text left to right, replace each match and resume right after it, so
 * matches never overlap. A rule is written as a matcher anchored at one
 * position; `Sub` is that scan. None of the core's patterns matches the empty
 * string, so a match always consumes at least one character.
 */
module Scan {
  import opened Wrappers
  import Text

  /** A match covering `len` characters, to be replaced by `rep`. */
  datatype Hit = Hit(len: nat, rep: string)

  /** A rule that looks only at the text from the current position on. */
  type Rule = string -> Option<Hit>

  predicate HitsAt(f: Rule, s: string) {
    f(s).Some? && 0 < f(s).value.len <= |s|
  }

  /** `re.sub` with a rule that needs no look-behind. */
  function Sub(f: Rule, s: string): string
    decreases |s|
  {
    if s == "" then ""
    else if HitsAt(f, s) then f(s).value.rep + Sub(f, s[f(s).value.len..])
    else [s[0]] + Sub(f, s[1..])
  }

  /** A match at the start: its replacement, then the scan of what follows it. */
  lemma SubHit(f: Rule, s: string, n: nat, rep: string)
    requires f(s) == Some(Hit(n, rep)) && 0 < n <= |s|
    ensures Sub(f, s) == rep + Sub(f, s[n..])
  {
  }

  /** No match of `f` starts before position `j` of `s`. */
  predicate NoHitBefore(f: Rule, s: string, j: nat)
    requires j <= |s|
  {
    forall k :: 0 <= k < j ==> !HitsAt(f, s[k..])
  }

  /** Dropping the first character shifts every position one place back. */
  lemma NoHitBeforeTail(f: Rule, s: string, j: nat)
    requires 0 < j <= |s| && NoHitBefore(f, s, j)
    ensures NoHitBefore(f, s[1..], j - 1)
  {
    forall k | 0 <= k < j - 1 ensures !HitsAt(f, s[1..][k..]) {
      assert s[1..][k..] == s[k + 1..];
    }
  }

  lemma ConsSplit(s: string, j: nat)
    requires 0 < j <= |s|
    ensures s[..j] == [s[0]] + s[1..][..j - 1] && s[1..][j - 1..] == s[j..]
  {
  }

  /** Text before the first match is copied unchanged. */
  lemma {:induction false} SubPrefix(f: Rule, s: string, j: nat)
    requires j <= |s| && NoHitBefore(f, s, j)
    ensures Sub(f, s) == s[..j] + Sub(f, s[j..])
  {
    if j > 0 {
      assert !HitsAt(f, s) by {
        assert s[0..] == s;
      }
      var t := s[1..];
      assert Sub(f, s) == [s[0]] + Sub(f, t);
      NoHitBeforeTail(f, s, j);
      SubPrefix(f, t, j - 1);
      ConsSplit(s, j);
      Text.ConcatAssoc([s[0]], t[..j - 1], Sub(f, t[j - 1..]));
    } else {
      assert s[..0] + Sub(f, s[0..]) == Sub(f, s) by {
        assert s[0..] == s;
      }
    }
  }

  /** A text in which the rule matches nowhere is left unchanged. */
  lemma SubIdentity(f: Rule, s: string)
    requires NoHitBefore(f, s, |s|)
    ensures Sub(f, s) == s
  {
    SubPrefix(f, s, |s|);
    assert s[..|s|] == s;
  }

  /** Every match at a position of `s` replaces exactly the text it covers. */
  predicate KeepsText(f: Rule, s: string) {
    forall k :: 0 <= k < |s| ==> KeepsAt(f, s[k..])
  }

  predicate KeepsAt(f: Rule, t: string) {
    HitsAt(f, t) ==> f(t).value.rep == t[..f(t).value.len]
  }

  /** A rule whose every match would rewrite a text into itself leaves it unchanged. */
  lemma {:induction false} SubKeeps(f: Rule, s: string)
    requires KeepsText(f, s)
    ensures Sub(f, s) == s
    decreases |s|
  {
    if s != "" {
      assert s[0..] == s;
      assert KeepsAt(f, s);
      var n := if HitsAt(f, s) then f(s).value.len else 1;
      var t := s[n..];
      forall k | 0 <= k < |t| ensures KeepsAt(f, t[k..]) {
        assert t[k..] == s[k + n..];
      }
      SubKeeps(f, t);
      assert s == s[..n] + t;
    }
  }

  /** Every replacement holds as many `c` as the text it replaces. */
  ghost predicate CountKept(f: Rule, c: char) {
    forall t :: HitsAt(f, t) ==> multiset(f(t).value.rep)[c] == multiset(t[..f(t).value.len])[c]
  }

  /** A scan whose every replacement keeps the number of `c` keeps it in the whole text. */
  lemma {:induction false} SubKeepsCount(f: Rule, s: string, c: char)
    requires CountKept(f, c)
    ensures multiset(Sub(f, s))[c] == multiset(s)[c]
    decreases |s|
  {
    if s != "" {
      var n := if HitsAt(f, s) then f(s).value.len else 1;
      SubKeepsCount(f, s[n..], c);
      assert s == s[..n] + s[n..];
    }
  }

  /** `text.replace(pat, repl)`: a match wherever `pat` starts the remaining text. */
  function Literal(pat: string, repl: string): Rule {
    (t: string) => if pat != "" && pat <= t then Some(Hit(|pat|, repl)) else None
  }

  function ReplaceAll(s: string, pat: string, repl: string): string {
    Sub(Literal(pat, repl), s)
  }

  /** `x` occurs nowhere in `s`. */
  predicate Absent(s: string, x: string) {
    forall k :: 0 <= k <= |s| ==> !OccursAt(s, x, k)
  }

  predicate OccursAt(s: string, x: string, k: nat) {
    k + |x| <= |s| && s[k..k + |x|] == x
  }

  predicate Disjoint(a: string, b: string) {
    forall j :: 0 <= j < |a| ==> a[j] !in b
  }

  /** Every replacement `f` makes is non-empty and shares no character with `x`. */
  ghost predicate RepsAvoid(f: Rule, x: string) {
    forall t :: HitsAt(f, t) ==> f(t).value.rep != "" && Disjoint(f(t).value.rep, x)
  }

  lemma SubStartsWithRep(f: Rule, s: string, y: string)
    requires HitsAt(f, s) && RepsAvoid(f, y) && y != ""
    ensures |Sub(f, s)| > 0 && Sub(f, s)[0] != y[0]
  {
    var q := f(s).value.rep;
    assert Sub(f, s)[0] == q[0];
  }

  lemma RepCharNotIn(f: Rule, s: string, x: string, i: nat)
    requires HitsAt(f, s) && RepsAvoid(f, x) && x != ""
    requires i < |f(s).value.rep|
    ensures Sub(f, s)[i] !in x
  {
    var q := f(s).value.rep;
    assert Sub(f, s)[i] == q[i];
  }

  /** If the output starts with `y`, so does the input, and no match starts inside that prefix. */
  lemma {:induction false} PrefixOfSub(f: Rule, s: string, y: string)
    requires RepsAvoid(f, y)
    requires |y| <= |Sub(f, s)| && Sub(f, s)[..|y|] == y
    ensures |y| <= |s| && s[..|y|] == y && NoHitBefore(f, s, |y|)
    decreases |s|
  {
    if y != "" {
      assert s != "";
      if HitsAt(f, s) {
        SubStartsWithRep(f, s, y);
        assert false;
      }
      var t := s[1..];
      assert Sub(f, s) == [s[0]] + Sub(f, t);
      assert Sub(f, t)[..|y| - 1] == y[1..];
      assert RepsAvoid(f, y[1..]) by {
        forall u | HitsAt(f, u) ensures Disjoint(f(u).value.rep, y[1..]) {
          var q := f(u).value.rep;
          forall j | 0 <= j < |q| ensures q[j] !in y[1..] {
          }
        }
      }
      PrefixOfSub(f, t, y[1..]);
      assert s[..|y|] == [s[0]] + t[..|y| - 1];
      forall k | 0 <= k < |y| ensures !HitsAt(f, s[k..]) {
        if k > 0 { assert s[k..] == t[k - 1..]; } else { assert s[0..] == s; }
      }
    }
  }

  /** A stretch of `s[n..]` the scan copied is a stretch of `s`, `n` places further on. */
  lemma ShiftCopied(f: Rule, s: string, n: nat, k: nat, x: string)
    requires n <= |s| && k + |x| <= |s| - n && s[n..][k..k + |x|] == x
    requires forall j :: k <= j < k + |x| ==> !HitsAt(f, s[n..][j..])
    ensures s[k + n..k + n + |x|] == x
    ensures forall j :: k + n <= j < k + n + |x| ==> !HitsAt(f, s[j..])
  {
    assert s[k + n..k + n + |x|] == s[n..][k..k + |x|];
    forall j | k + n <= j < k + n + |x| ensures !HitsAt(f, s[j..]) {
      assert s[j..] == s[n..][j - n..];
    }
  }

  /** A stretch of the output taken from its tail after the first `m` characters. */
  lemma TailSlice(r: string, q: string, u: string, i: nat, x: string)
    requires r == q + u && |q| <= i && i + |x| <= |r| && r[i..i + |x|] == x
    ensures u[i - |q|..i - |q| + |x|] == x
  {
    assert u[i - |q|..i - |q| + |x|] == r[i..i + |x|];
  }

  /** An occurrence of `x` in the output lies in a stretch the scan copied unchanged. */
  lemma {:induction false} OccurrenceInSub(f: Rule, s: string, x: string, i: nat) returns (k: nat)
    requires x != "" && RepsAvoid(f, x)
    requires i + |x| <= |Sub(f, s)| && Sub(f, s)[i..i + |x|] == x
    ensures k + |x| <= |s| && s[k..k + |x|] == x
    ensures forall j :: k <= j < k + |x| ==> !HitsAt(f, s[j..])
    decreases |s|, 1
  {
    if i == 0 {
      assert Sub(f, s)[..|x|] == x;
      PrefixOfSub(f, s, x);
      k := 0;
      assert s[0..|x|] == s[..|x|];
    } else if HitsAt(f, s) {
      k := OccurrenceAfterHit(f, s, x, i);
    } else {
      k := OccurrenceAfterCopy(f, s, x, i);
    }
  }

  /** `OccurrenceInSub` past a match: the occurrence lies in the output of the rest of the scan. */
  lemma {:induction false} OccurrenceAfterHit(f: Rule, s: string, x: string, i: nat) returns (k: nat)
    requires x != "" && RepsAvoid(f, x) && 0 < i && HitsAt(f, s)
    requires i + |x| <= |Sub(f, s)| && Sub(f, s)[i..i + |x|] == x
    ensures k + |x| <= |s| && s[k..k + |x|] == x
    ensures forall j :: k <= j < k + |x| ==> !HitsAt(f, s[j..])
    decreases |s|, 0
  {
    var n := f(s).value.len;
    var q := f(s).value.rep;
    if i < |q| {
      RepCharNotIn(f, s, x, i);
      assert false;
    }
    TailSlice(Sub(f, s), q, Sub(f, s[n..]), i, x);
    var k' := OccurrenceInSub(f, s[n..], x, i - |q|);
    ShiftCopied(f, s, n, k', x);
    k := k' + n;
  }

  /** `OccurrenceInSub` past a copied character. */
  lemma {:induction false} OccurrenceAfterCopy(f: Rule, s: string, x: string, i: nat) returns (k: nat)
    requires x != "" && RepsAvoid(f, x) && 0 < i && !HitsAt(f, s)
    requires i + |x| <= |Sub(f, s)| && Sub(f, s)[i..i + |x|] == x
    ensures k + |x| <= |s| && s[k..k + |x|] == x
    ensures forall j :: k <= j < k + |x| ==> !HitsAt(f, s[j..])
    decreases |s|, 0
  {
    TailSlice(Sub(f, s), [s[0]], Sub(f, s[1..]), i, x);
    var k' := OccurrenceInSub(f, s[1..], x, i - 1);
    ShiftCopied(f, s, 1, k', x);
    k := k' + 1;
  }

  /** Replacing `pat` with a text that shares no character with it leaves no `pat` behind. */
  lemma ReplaceAllRemoves(s: string, pat: string, repl: string)
    requires pat != "" && repl != "" && Disjoint(repl, pat)
    ensures Absent(ReplaceAll(s, pat, repl), pat)
  {
    var f := Literal(pat, repl);
    var r := Sub(f, s);
    forall i | 0 <= i <= |r| ensures !OccursAt(r, pat, i) {
      if OccursAt(r, pat, i) {
        var k := OccurrenceInSub(f, s, pat, i);
        assert pat <= s[k..];
        assert HitsAt(f, s[k..]);
      }
    }
  }

  /** A scan whose replacements share no character with `x` creates no `x`. */
  lemma SubKeepsAbsent(f: Rule, s: string, x: string)
    requires x != "" && RepsAvoid(f, x) && Absent(s, x)
    ensures Absent(Sub(f, s), x)
  {
    var r := Sub(f, s);
    forall i | 0 <= i <= |r| ensures !OccursAt(r, x, i) {
      if OccursAt(r, x, i) {
        var k := OccurrenceInSub(f, s, x, i);
        assert OccursAt(s, x, k);
      }
    }
  }

  /** Replacing `pat` with a text that shares no character with `x` creates no `x`. */
  lemma ReplaceAllKeepsAbsent(s: string, pat: string, repl: string, x: string)
    requires pat != "" && repl != "" && x != "" && Disjoint(repl, x)
    requires Absent(s, x)
    ensures Absent(ReplaceAll(s, pat, repl), x)
  {
    SubKeepsAbsent(Literal(pat, repl), s, x);
  }

  /** A text that never contains `x` never contains anything that starts with `x`. */
  lemma AbsentExtended(s: string, x: string, y: string)
    requires |x| <= |y| && y[..|x|] == x && Absent(s, x)
    ensures Absent(s, y)
  {
    forall k | 0 <= k <= |s| ensures !OccursAt(s, y, k) {
      if OccursAt(s, y, k) {
        assert s[k..k + |x|] == y[..|x|];
        assert OccursAt(s, x, k);
      }
    }
  }

  /** A literal that never occurs is never replaced. */
  lemma ReplaceAllAbsent(s: string, pat: string, repl: string)
    requires pat != "" && Absent(s, pat)
    ensures ReplaceAll(s, pat, repl) == s
  {
    var f := Literal(pat, repl);
    forall k | 0 <= k < |s| ensures !HitsAt(f, s[k..]) {
      assert !OccursAt(s, pat, k);
    }
    SubIdentity(f, s);
  }

  /** A rule that may look one character back: it is given the whole text and a position. */
  type RuleAt = (string, nat) -> Option<Hit>

  predicate HitsAtIndex(g: RuleAt, s: string, i: nat) {
    i < |s| && g(s, i).Some? && 0 < g(s, i).value.len <= |s| - i
  }

  /** `re.sub` with a rule that may inspect the character before the match (`\b`). */
  function SubFrom(g: RuleAt, s: string, i: nat): string
    requires i <= |s|
    decreases |s| - i
  {
    if i == |s| then ""
    else if HitsAtIndex(g, s, i) then g(s, i).value.rep + SubFrom(g, s, i + g(s, i).value.len)
    else [s[i]] + SubFrom(g, s, i + 1)
  }

  function SubAll(g: RuleAt, s: string): string {
    SubFrom(g, s, 0)
  }

  /** A text in which the rule matches at no position from `i` on keeps its tail. */
  lemma {:induction false} SubFromIdentity(g: RuleAt, s: string, i: nat)
    requires i <= |s|
    requires forall k :: i <= k < |s| ==> !HitsAtIndex(g, s, k)
    ensures SubFrom(g, s, i) == s[i..]
    decreases |s| - i
  {
    if i < |s| {
      SubFromIdentity(g, s, i + 1);
      assert s[i..] == [s[i]] + s[i + 1..];
    }
  }

  /** Every replacement of an indexed rule holds as many `c` as the text it replaces. */
  ghost predicate CountKeptAt(g: RuleAt, c: char) {
    forall s: string, i: nat :: HitsAtIndex(g, s, i) ==> multiset(g(s, i).value.rep)[c] == multiset(s[i..i + g(s, i).value.len])[c]
  }

  /** Every replacement in `s` from position `i` on holds as many `c` as the text it replaces. */
  predicate CountKeptFrom(g: RuleAt, s: string, i: nat, c: char)
    requires i <= |s|
    decreases |s| - i
  {
    i == |s| ||
    ((HitsAtIndex(g, s, i) ==> multiset(g(s, i).value.rep)[c] == multiset(s[i..i + g(s, i).value.len])[c]) &&
     CountKeptFrom(g, s, i + 1, c))
  }

  /** What `CountKeptAt` says about every rule gives `CountKeptFrom` on every text. */
  lemma {:induction false} CountKeptAtFrom(g: RuleAt, s: string, i: nat, c: char)
    requires i <= |s| && CountKeptAt(g, c)
    ensures CountKeptFrom(g, s, i, c)
    decreases |s| - i
  {
    if i < |s| {
      CountKeptAtFrom(g, s, i + 1, c);
    }
  }

  /** Later positions keep the counts when earlier ones do. */
  lemma {:induction false} CountKeptLater(g: RuleAt, s: string, i: nat, n: nat, c: char)
    requires i + n <= |s| && CountKeptFrom(g, s, i, c)
    ensures CountKeptFrom(g, s, i + n, c)
    decreases n
  {
    if n > 0 {
      CountKeptLater(g, s, i + 1, n - 1, c);
    }
  }

  /** One step of the scan at `i`: the replacement or the copied character, then the scan after it. */
  lemma SubFromStep(g: RuleAt, s: string, i: nat, c: char) returns (n: nat, head: string)
    requires i < |s| && CountKeptFrom(g, s, i, c)
    ensures 0 < n && i + n <= |s| && SubFrom(g, s, i) == head + SubFrom(g, s, i + n)
    ensures multiset(head)[c] == multiset(s[i..i + n])[c]
  {
    if HitsAtIndex(g, s, i) {
      n, head := g(s, i).value.len, g(s, i).value.rep;
    } else {
      n, head := 1, [s[i]];
      assert head == s[i..i + n];
    }
  }

  /** The count after one step: the step's part plus the part of the rest of the scan. */
  lemma CountStep(g: RuleAt, s: string, i: nat, n: nat, head: string, c: char)
    requires 0 < n && i + n <= |s| && SubFrom(g, s, i) == head + SubFrom(g, s, i + n)
    requires multiset(head)[c] == multiset(s[i..i + n])[c]
    requires multiset(SubFrom(g, s, i + n))[c] == multiset(s[i + n..])[c]
    ensures multiset(SubFrom(g, s, i))[c] == multiset(s[i..])[c]
  {
    Text.SliceSplit(s, i, i + n);
    SplitCount(SubFrom(g, s, i), head, SubFrom(g, s, i + n), s[i..], s[i..i + n], s[i + n..], c);
  }

  lemma {:induction false} SubFromKeepsCount(g: RuleAt, s: string, i: nat, c: char)
    requires i <= |s| && CountKeptFrom(g, s, i, c)
    ensures multiset(SubFrom(g, s, i))[c] == multiset(s[i..])[c]
    decreases |s| - i
  {
    if i < |s| {
      var n, head := SubFromStep(g, s, i, c);
      CountKeptLater(g, s, i, n, c);
      SubFromKeepsCount(g, s, i + n, c);
      CountStep(g, s, i, n, head, c);
    }
  }

  /** A rule whose every replacement keeps the count of `c` keeps it over the whole text. */
  lemma SubAllKeepsCount(g: RuleAt, s: string, c: char)
    requires CountKeptAt(g, c)
    ensures multiset(SubAll(g, s))[c] == multiset(s)[c]
  {
    CountKeptAtFrom(g, s, 0, c);
    SubFromKeepsCount(g, s, 0, c);
    assert s[0..] == s;
  }

  /** Counts add up over a concatenation. */
  lemma SplitCount(whole: string, head: string, tail: string, orig: string, piece: string, rest: string, c: char)
    requires whole == head + tail && orig == piece + rest
    requires multiset(head)[c] == multiset(piece)[c] && multiset(tail)[c] == multiset(rest)[c]
    ensures multiset(whole)[c] == multiset(orig)[c]
  {
  }
}
