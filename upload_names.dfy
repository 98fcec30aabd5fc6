/**
 * The file-name helpers of the uploader: `safe_name`, the POSIX
 * `os.path.basename` and `os.path.splitext` that `infer_title_from_filename`
 * applies, the `(.+)_pt(\d+)$` part-file pattern, the inferred title, and the
 * 100-character title cut of `upload_video`.
 */
module UploadNames {
  import opened Wrappers
  import opened Text
  import opened Scan

  // ---------------------------------------------------------------- safe_name

  /** `[A-Za-z0-9_.-]` */
  predicate IsSafeChar(c: char) { IsAlnum(c) || c == '_' || c == '.' || c == '-' }

  predicate IsUnsafe(c: char) { !IsSafeChar(c) }

  predicate AllSafe(s: string) { forall k :: 0 <= k < |s| ==> IsSafeChar(s[k]) }

  /** `[^A-Za-z0-9_.-]+` anchored at the start of `t`, replaced by `_`. */
  function UnsafeRunAt(t: string): Option<Hit> {
    if RunFrom(t, 0, IsUnsafe) == 0 then None else Some(Hit(RunFrom(t, 0, IsUnsafe), "_"))
  }

  /** `safe_name` */
  function SafeName(name: string): string {
    Sub(UnsafeRunAt, name)
  }

  /** Only characters of `[A-Za-z0-9_.-]` come out. */
  lemma {:induction false} SafeNameChars(name: string)
    ensures AllSafe(SafeName(name))
    decreases |name|
  {
    if name != "" {
      var n := RunFrom(name, 0, IsUnsafe);
      if n == 0 {
        SafeNameChars(name[1..]);
        assert SafeName(name) == [name[0]] + SafeName(name[1..]);
      } else {
        SafeNameChars(name[n..]);
        assert SafeName(name) == "_" + SafeName(name[n..]);
      }
    }
  }

  /** A name made of allowed characters is its own safe name. */
  lemma SafeNameOfSafe(name: string)
    requires AllSafe(name)
    ensures SafeName(name) == name
  {
    forall k | 0 <= k < |name| ensures !HitsAt(UnsafeRunAt, name[k..]) {
      assert name[k..][0] == name[k];
    }
    SubIdentity(UnsafeRunAt, name);
  }

  /** A name is its own safe name exactly when every character is allowed. */
  lemma SafeNameFixedPoints(name: string)
    ensures SafeName(name) == name <==> AllSafe(name)
  {
    SafeNameChars(name);
    if AllSafe(name) {
      SafeNameOfSafe(name);
    }
  }

  /** `safe_name` is idempotent. */
  lemma SafeNameIdempotent(name: string)
    ensures SafeName(SafeName(name)) == SafeName(name)
  {
    SafeNameChars(name);
    SafeNameOfSafe(SafeName(name));
  }

  /** The scan of `a + b` starts the way the scan of `a` does when the first run ends inside `a`. */
  lemma SafeNameStep(a: string, b: string) returns (n: nat, rep: string)
    requires a != "" && IsSafeChar(a[|a| - 1])
    ensures 0 < n <= |a| && (a + b)[n..] == a[n..] + b
    ensures SafeName(a + b) == rep + SafeName(a[n..] + b)
    ensures SafeName(a) == rep + SafeName(a[n..])
  {
    var s := a + b;
    var r := RunFrom(a, 0, IsUnsafe);
    RunFromMatches(a, 0, IsUnsafe);
    assert r < |a|;
    forall k | 0 <= k < r ensures IsUnsafe(s[k]) {
      assert s[k] == a[k];
    }
    assert s[r] == a[r];
    RunFromOf(s, 0, r, IsUnsafe);
    if r == 0 {
      n, rep := 1, [a[0]];
    } else {
      n, rep := r, "_";
    }
    assert s[n..] == a[n..] + b;
  }

  /** A cut after an allowed character is not crossed by a run: the two sides are made safe apart. */
  lemma {:induction false} SafeNameAppend(a: string, b: string)
    requires a == "" || IsSafeChar(a[|a| - 1])
    ensures SafeName(a + b) == SafeName(a) + SafeName(b)
    decreases |a|
  {
    if a == "" {
      assert a + b == b;
    } else {
      var n, rep := SafeNameStep(a, b);
      var rest := a[n..];
      assert rest == "" || rest[|rest| - 1] == a[|a| - 1];
      SafeNameAppend(rest, b);
      assert SafeName(a + b) == rep + (SafeName(rest) + SafeName(b));
    }
  }

  /** A maximal run of other characters becomes exactly one `_`. */
  lemma RunBecomesOneUnderscore(u: string, b: string)
    requires u != "" && forall k :: 0 <= k < |u| ==> IsUnsafe(u[k])
    requires b == "" || IsSafeChar(b[0])
    ensures SafeName(u + b) == "_" + SafeName(b)
  {
    var s := u + b;
    RunFromOf(s, 0, |u|, IsUnsafe);
    assert s[|u|..] == b;
    SubHit(UnsafeRunAt, s, |u|, "_");
  }

  /**
   * Allowed characters stay in place and in order; each maximal run of other
   * characters between them turns into one `_`.
   */
  lemma SafeNameRun(a: string, u: string, b: string)
    requires a == "" || IsSafeChar(a[|a| - 1])
    requires u != "" && forall k :: 0 <= k < |u| ==> IsUnsafe(u[k])
    requires b == "" || IsSafeChar(b[0])
    ensures SafeName(a + u + b) == SafeName(a) + "_" + SafeName(b)
  {
    SafeNameAppend(a, u + b);
    assert a + u + b == a + (u + b);
    RunBecomesOneUnderscore(u, b);
  }

  // ---------------------------------------------------------------- basename and splitext

  /** `s.rfind(c)`: the last position of `c`, or -1. */
  function RFind(s: string, c: char): (i: int)
    ensures -1 <= i < |s|
    ensures 0 <= i ==> s[i] == c
    ensures forall k :: i < k < |s| ==> s[k] != c
  {
    if s == "" then -1
    else if s[|s| - 1] == c then |s| - 1
    else RFind(s[..|s| - 1], c)
  }

  /** POSIX `os.path.basename`: what follows the last `/`. */
  function Basename(path: string): string {
    path[RFind(path, '/') + 1..]
  }

  lemma BasenameOf(dir: string, file: string)
    requires '/' !in file
    ensures Basename(dir + "/" + file) == file
  {
    var p := dir + "/" + file;
    assert p[|dir|] == '/';
    assert forall k :: |dir| < k < |p| ==> p[k] == file[k - |dir| - 1];
    assert p[|dir| + 1..] == file;
  }

  predicate IsDot(c: char) { c == '.' }

  /**
   * `os.path.splitext(name)[0]` for a name without `/`: the text before the
   * last `.`, provided something other than dots comes before that `.`;
   * otherwise the whole name.
   */
  function Stem(name: string): string {
    var dot := RFind(name, '.');
    if 0 < dot && RunFrom(name, 0, IsDot) < dot then name[..dot] else name
  }

  /** A name with a character other than `.` does not start with a run of dots as long as itself. */
  lemma NotAllDots(s: string, k: nat)
    requires k < |s| && s[k] != '.'
    ensures RunFrom(s, 0, IsDot) < |s|
  {
    RunFromMatches(s, 0, IsDot);
  }

  /** The last `c` is at `i` when `c` is at `i` and nowhere after it. */
  lemma RFindAt(s: string, c: char, i: nat)
    requires i < |s| && s[i] == c && forall k :: i < k < |s| ==> s[k] != c
    ensures RFind(s, c) == i
  {
  }

  /** The last `c` of `s` is at `i` when nothing after `i` is a `c`. */
  lemma LastBeforeTail(s: string, c: char, i: nat, tail: string)
    requires i < |s| && s[i] == c && s[i + 1..] == tail && c !in tail
    ensures RFind(s, c) == i
  {
    forall k | i < k < |s| ensures s[k] != c {
      assert s[k] == tail[k - i - 1];
    }
    RFindAt(s, c, i);
  }

  /** The last `.` of `base.ext` is the one before `ext` when `ext` has none. */
  lemma LastDotBeforeExt(base: string, ext: string)
    requires '.' !in ext
    ensures RFind(base + "." + ext, '.') == |base|
  {
    var s := base + "." + ext;
    assert s[|base|] == '.' && s[|base| + 1..] == ext;
    LastBeforeTail(s, '.', |base|, ext);
  }

  /** A run that ends inside `a` is the same run in `a + b`. */
  lemma RunFromPrefix(a: string, b: string, p: char -> bool)
    requires RunFrom(a, 0, p) < |a|
    ensures RunFrom(a + b, 0, p) == RunFrom(a, 0, p)
  {
    var s := a + b;
    var n := RunFrom(a, 0, p);
    RunFromMatches(a, 0, p);
    forall k | 0 <= k < n ensures p(s[k]) {
      assert s[k] == a[k];
    }
    assert s[n] == a[n];
    RunFromOf(s, 0, n, p);
  }

  /** The stem of `base.ext` is `base` when `ext` has no dot and `base` is not only dots. */
  lemma StemOf(base: string, ext: string)
    requires '.' !in ext && RunFrom(base, 0, IsDot) < |base|
    ensures Stem(base + "." + ext) == base
  {
    var s := base + "." + ext;
    var tail := "." + ext;
    assert s == base + tail;
    LastDotBeforeExt(base, ext);
    RunFromPrefix(base, tail, IsDot);
    assert s[..|base|] == base;
  }

  // ---------------------------------------------------------------- (.+)_pt(\d+)$

  /** A part file: the name before `_pt`, and the part number's digits as written. */
  datatype PartName = PartName(key: string, digits: string)

  /** How many characters at the end of `s` satisfy `p`. */
  function TrailingRun(s: string, p: char -> bool): (n: nat)
    ensures n <= |s|
    ensures forall k :: |s| - n <= k < |s| ==> p(s[k])
    ensures n == |s| || !p(s[|s| - n - 1])
  {
    if s == "" || !p(s[|s| - 1]) then 0 else 1 + TrailingRun(s[..|s| - 1], p)
  }

  /** Where `$` matches: the end, or just before a final newline. */
  function MatchEnd(s: string): nat {
    if s != "" && s[|s| - 1] == '\n' then |s| - 1 else |s|
  }

  /**
   * `re.match(r"(.+)_pt(\d+)$", stem)`. The digits run back from where `$`
   * matches; `_pt` must come right before them and at least one character
   * other than a newline before that. Because `_pt` holds no digit, there is
   * only one place to cut, which is the last `_pt` that the greedy `.+` finds.
   */
  function ParsePart(stem: string): Option<PartName> {
    var e := MatchEnd(stem);
    var d := TrailingRun(stem[..e], IsDigit);
    if 0 < d && 4 <= e - d && stem[e - d - 3] == '_' && stem[e - d - 2] == 'p' && stem[e - d - 1] == 't' && '\n' !in stem[..e - d - 3]
    then Some(PartName(stem[..e - d - 3], stem[e - d..e]))
    else None
  }

  /** A run of `n` matching characters at the end, with a non-matching one or nothing before it, is the trailing run. */
  lemma {:induction false} TrailingRunOf(s: string, n: nat, p: char -> bool)
    requires n <= |s| && forall k :: |s| - n <= k < |s| ==> p(s[k])
    requires n == |s| || !p(s[|s| - n - 1])
    ensures TrailingRun(s, p) == n
    decreases n
  {
    if n > 0 {
      var init := s[..|s| - 1];
      assert forall k :: |init| - (n - 1) <= k < |init| ==> init[k] == s[k];
      assert n - 1 == |init| || init[|init| - (n - 1) - 1] == s[|s| - n - 1];
      TrailingRunOf(init, n - 1, p);
    }
  }

  lemma MatchEndOf(core: string, newline: bool)
    requires core != "" && core[|core| - 1] != '\n'
    ensures MatchEnd(core + (if newline then "\n" else "")) == |core|
    ensures (core + (if newline then "\n" else ""))[..|core|] == core
  {
    var stem := core + (if newline then "\n" else "");
    assert stem[|core| - 1] == core[|core| - 1];
  }

  /** `key_pt<digits>`, with or without a final newline, is a part file of that key and those digits. */
  lemma ParsePartOf(key: string, digits: string, newline: bool)
    requires key != "" && '\n' !in key && digits != "" && AllDigits(digits)
    ensures ParsePart(key + "_pt" + digits + (if newline then "\n" else "")) == Some(PartName(key, digits))
  {
    var core := key + "_pt" + digits;
    var stem := core + (if newline then "\n" else "");
    assert core[|core| - 1] == digits[|digits| - 1];
    MatchEndOf(core, newline);
    assert forall k :: |core| - |digits| <= k < |core| ==> core[k] == digits[k - |core| + |digits|];
    assert core[|core| - |digits| - 1] == 't';
    TrailingRunOf(core, |digits|, IsDigit);
    assert stem[..|key|] == key;
    assert stem[|key|] == '_' && stem[|key| + 1] == 'p' && stem[|key| + 2] == 't';
    assert stem[|key| + 3..|core|] == digits;
  }

  /** A part file's stem is its key, `_pt` and its digits, with perhaps a final newline. */
  lemma ParsePartShape(stem: string)
    requires ParsePart(stem).Some?
    ensures var p := ParsePart(stem).value;
            p.key != "" && '\n' !in p.key && p.digits != "" && AllDigits(p.digits) &&
            (stem == p.key + "_pt" + p.digits || stem == p.key + "_pt" + p.digits + "\n")
  {
    var e := MatchEnd(stem);
    var d := TrailingRun(stem[..e], IsDigit);
    var p := ParsePart(stem).value;
    assert stem[..e] == p.key + "_pt" + p.digits;
    if e < |stem| {
      assert stem == stem[..e] + "\n";
    }
  }

  // ---------------------------------------------------------------- the title

  /** `infer_title_from_filename` */
  function InferTitle(path: string, titles: map<string, string>): string {
    var base := Stem(Basename(path));
    match ParsePart(base)
    case Some(PartName(key, digits)) =>
      (if key in titles && titles[key] != "" then titles[key] else key) + " - Part " + NatToString(DigitsValue(digits))
    case None =>
      if base in titles && titles[base] != "" then titles[base] else base
  }

  /**
   * The video `dir/key_pt<digits>.ext` is titled after its post when the map
   * has a non-empty title for `key`, after `key` otherwise, and the part number
   * is written without leading zeros.
   */
  lemma PartFileTitle(dir: string, key: string, digits: string, ext: string, titles: map<string, string>)
    requires key != "" && '\n' !in key && '/' !in key
    requires digits != "" && AllDigits(digits)
    requires '/' !in ext && '.' !in ext
    ensures InferTitle(dir + "/" + key + "_pt" + digits + "." + ext, titles)
            == (if key in titles && titles[key] != "" then titles[key] else key) + " - Part " + NatToString(DigitsValue(digits))
  {
    var base := key + "_pt" + digits;
    var file := base + "." + ext;
    assert forall k :: 0 <= k < |file| ==> file[k] != '/' by {
      assert forall k :: 0 <= k < |base| ==> base[k] != '/' by {
        assert forall k :: |key| + 3 <= k < |base| ==> IsDigit(base[k]) by {
          assert forall k :: |key| + 3 <= k < |base| ==> base[k] == digits[k - |key| - 3];
        }
      }
    }
    assert dir + "/" + key + "_pt" + digits + "." + ext == dir + "/" + file;
    BasenameOf(dir, file);
    assert base[|base| - 1] == digits[|digits| - 1];
    NotAllDots(base, |base| - 1);
    StemOf(base, ext);
    ParsePartOf(key, digits, false);
    assert base + "" == base;
  }

  /** Leading zeros of the part number are dropped: `_pt007` is part 7. */
  lemma PartNumberWithoutZeros(zeros: nat, digits: string)
    requires digits != "" && AllDigits(digits) && digits[0] != '0'
    ensures AllDigits(seq(zeros, _ => '0') + digits)
    ensures NatToString(DigitsValue(seq(zeros, _ => '0') + digits)) == digits
  {
    LeadingZeroValue(zeros, digits);
    DigitsValueString(digits);
  }

  lemma {:induction false} LeadingZeroValue(zeros: nat, digits: string)
    requires AllDigits(digits)
    ensures AllDigits(seq(zeros, _ => '0') + digits)
    ensures DigitsValue(seq(zeros, _ => '0') + digits) == DigitsValue(digits)
    decreases |digits|
  {
    var z := seq(zeros, _ => '0');
    if digits == "" {
      assert z + digits == z;
      ZerosValue(zeros);
    } else {
      var init := digits[..|digits| - 1];
      LeadingZeroValue(zeros, init);
      var s := z + digits;
      assert s[..|s| - 1] == z + init;
    }
  }

  lemma {:induction false} ZerosValue(zeros: nat)
    ensures AllDigits(seq(zeros, _ => '0'))
    ensures DigitsValue(seq(zeros, _ => '0')) == 0
  {
    if zeros > 0 {
      ZerosValue(zeros - 1);
      var z := seq(zeros, _ => '0');
      assert z[..zeros - 1] == seq(zeros - 1, _ => '0');
    }
  }

  /** A stem that is not a part file is titled by the map when it has a non-empty title for it, by itself otherwise. */
  lemma OtherFileTitle(dir: string, stem: string, ext: string, titles: map<string, string>)
    requires '/' !in stem && ParsePart(stem).None?
    requires exists k :: 0 <= k < |stem| && stem[k] != '.'
    requires '/' !in ext && '.' !in ext
    ensures InferTitle(dir + "/" + stem + "." + ext, titles) == if stem in titles && titles[stem] != "" then titles[stem] else stem
  {
    var file := stem + "." + ext;
    assert dir + "/" + stem + "." + ext == dir + "/" + file;
    BasenameOf(dir, file);
    var k :| 0 <= k < |stem| && stem[k] != '.';
    NotAllDots(stem, k);
    StemOf(stem, ext);
  }

  // ---------------------------------------------------------------- upload_video

  const MaxTitle := 100

  /** `title[:100]` */
  function SentTitle(title: string): (r: string)
    ensures |r| <= MaxTitle && |r| <= |title| && r == title[..|r|]
    ensures |title| <= MaxTitle ==> r == title
    ensures |title| > MaxTitle ==> |r| == MaxTitle
  {
    if |title| <= MaxTitle then title else title[..MaxTitle]
  }
}
