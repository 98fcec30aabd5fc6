/**
 * `handle_currency_and_numbers`: amounts after `£` and `$`, percentages and
 * clock times are spelled out for speech, one `re.sub` after the other. Every
 * rule needs a digit, and every rule keeps the digits it matches, so the
 * numbers of the text are exactly the numbers of the result.
 */
module FormatCurrency {
  import opened Wrappers
  import opened Text
  import opened Scan

  predicate NoDigit(s: string) { forall k :: 0 <= k < |s| ==> !IsDigit(s[k]) }

  // ---------------------------------------------------------------- amounts

  /** `£(\d+)` or `\$(\d+)`, the sign given, replaced by the digits and `unit`. */
  function AmountAt(sign: char, unit: string, t: string): Option<Hit> {
    if t == "" || t[0] != sign then None
    else
      var r := RunFrom(t, 1, IsDigit);
      if r == 0 then None else Some(Hit(1 + r, t[1..1 + r] + unit))
  }

  /** `£(\d+)-£(\d+)` or `\$(\d+)-\$(\d+)`, replaced by `\1 to \2` and `unit`. */
  function RangeAt(sign: char, unit: string, t: string): Option<Hit> {
    if t == "" || t[0] != sign then None
    else
      var a := RunFrom(t, 1, IsDigit);
      var i := 1 + a;
      if a == 0 || i + 2 > |t| || t[i] != '-' || t[i + 1] != sign then None
      else
        var b := RunFrom(t, i + 2, IsDigit);
        if b == 0 then None else Some(Hit(i + 2 + b, t[1..i] + " to " + t[i + 2..i + 2 + b] + unit))
  }

  function PoundsAt(t: string): Option<Hit> { AmountAt('£', " pounds", t) }
  function PoundRangeAt(t: string): Option<Hit> { RangeAt('£', " pounds", t) }
  function DollarsAt(t: string): Option<Hit> { AmountAt('$', " dollars", t) }
  function DollarRangeAt(t: string): Option<Hit> { RangeAt('$', " dollars", t) }

  /** The four currency rules in the order the source applies them: each amount rule before its range rule. */
  function MoneyAsWritten(text: string): string {
    var t := Sub(PoundsAt, text);
    var t := Sub(PoundRangeAt, t);
    var t := Sub(DollarsAt, t);
    Sub(DollarRangeAt, t)
  }

  /** The currency rules with each range rule before its amount rule, so that a range can match. */
  function Money(text: string): string {
    var t := Sub(PoundRangeAt, text);
    var t := Sub(PoundsAt, t);
    var t := Sub(DollarRangeAt, t);
    Sub(DollarsAt, t)
  }

  // ---------------------------------------------------------------- percentages and times

  /** `(\d+)%`, replaced by the digits and ` percent`. */
  function PercentAt(t: string): Option<Hit> {
    var r := RunFrom(t, 0, IsDigit);
    if r == 0 || r == |t| || t[r] != '%' then None else Some(Hit(r + 1, t[..r] + " percent"))
  }

  datatype Meridiem = Am | Pm | PmDots

  /** `am`, `pm` or `p.m.` at position `i` of `t`. */
  predicate MeridiemAt(t: string, i: nat, m: Meridiem) {
    match m
    case Am => i + 2 <= |t| && t[i] == 'a' && t[i + 1] == 'm'
    case Pm => i + 2 <= |t| && t[i] == 'p' && t[i + 1] == 'm'
    case PmDots => i + 4 <= |t| && t[i] == 'p' && t[i + 1] == '.' && t[i + 2] == 'm' && t[i + 3] == '.'
  }

  function MeridiemLength(m: Meridiem): nat { if m == PmDots then 4 else 2 }

  function Spoken(m: Meridiem): string { if m == Am then " A.M." else " P.M." }

  /**
   * `\d{1,2}` at the start of `t`: up to two digits. When a longer run of
   * digits starts here, backing off to one digit leaves a digit where the
   * rest of the pattern needs a letter or a colon, so two digits is the only
   * length that can match.
   */
  function Hour(t: string): nat {
    var r := RunFrom(t, 0, IsDigit);
    if r < 2 then r else 2
  }

  /** `(\d{1,2})am` or `(\d{1,2})pm`, replaced by the digits and ` A.M.` or ` P.M.`. */
  function HourAt(m: Meridiem, t: string): Option<Hit> {
    var h := Hour(t);
    if h > 0 && MeridiemAt(t, h, m) then Some(Hit(h + MeridiemLength(m), t[..h] + Spoken(m))) else None
  }

  /** `(\d{1,2}):(\d{2})` at the start of `t`, with `h` the hour's digits. */
  predicate ClockShape(t: string, h: nat) {
    h > 0 && h + 3 <= |t| && t[h] == ':' && IsDigit(t[h + 1]) && IsDigit(t[h + 2])
  }

  /** Where `\s*` after `h:mm` ends. */
  function ClockEnd(t: string, h: nat): nat
    requires h + 3 <= |t|
  {
    h + 3 + RunFrom(t, h + 3, IsSpace)
  }

  /** `(\d{1,2}):(\d{2})\s*am`, `…pm` or `…p\.m\.`, replaced by `\1:\2` and ` A.M.` or ` P.M.`. */
  function ClockAt(m: Meridiem, t: string): Option<Hit> {
    var h := Hour(t);
    if ClockShape(t, h) && MeridiemAt(t, ClockEnd(t, h), m)
    then Some(Hit(ClockEnd(t, h) + MeridiemLength(m), t[..h + 3] + Spoken(m)))
    else None
  }

  function AmAt(t: string): Option<Hit> { HourAt(Am, t) }
  function PmAt(t: string): Option<Hit> { HourAt(Pm, t) }
  function ClockAmAt(t: string): Option<Hit> { ClockAt(Am, t) }
  function ClockPmAt(t: string): Option<Hit> { ClockAt(Pm, t) }
  function ClockPmDotsAt(t: string): Option<Hit> { ClockAt(PmDots, t) }

  /** The percentage rule and the five time rules, in the source's order. */
  function NumbersAndTimes(text: string): string {
    var t := Sub(PercentAt, text);
    var t := Sub(AmAt, t);
    var t := Sub(PmAt, t);
    var t := Sub(ClockAmAt, t);
    var t := Sub(ClockPmAt, t);
    Sub(ClockPmDotsAt, t)
  }

  /** `handle_currency_and_numbers` as the source orders its rules. */
  function CurrencyAndNumbersAsWritten(text: string): string {
    NumbersAndTimes(MoneyAsWritten(text))
  }

  /** `handle_currency_and_numbers` with the range rules moved before the amount rules. */
  function CurrencyAndNumbers(text: string): string {
    NumbersAndTimes(Money(text))
  }

  // ---------------------------------------------------------------- what one match produces

  /** `t` starts with the sign and a run of `d` digits. */
  predicate AmountText(t: string, sign: char, d: nat) {
    0 < d && 1 + d <= |t| && t[0] == sign && RunFrom(t, 1, IsDigit) == d
  }

  /** `t` starts with the sign, a run of `a` digits, a dash, the sign again and a run of `b` digits. */
  predicate RangeText(t: string, sign: char, a: nat, b: nat) {
    0 < a && 0 < b && 3 + a + b <= |t| && t[0] == sign && RunFrom(t, 1, IsDigit) == a &&
    t[1 + a] == '-' && t[2 + a] == sign && RunFrom(t, 3 + a, IsDigit) == b
  }

  /** The two currency signs. */
  predicate IsSign(c: char) { c == '£' || c == '$' }

  /** The unit a sign is read as. */
  function Unit(sign: char): string { if sign == '£' then " pounds" else " dollars" }

  /** The amount rule of a sign: line 184 for `£`, line 188 for `$`. */
  function AmountRule(sign: char): Rule { if sign == '£' then PoundsAt else DollarsAt }

  /** The range rule of a sign: line 185 for `£`, line 189 for `$`. */
  function RangeRule(sign: char): Rule { if sign == '£' then PoundRangeAt else DollarRangeAt }

  /** An amount: the sign and its digits become the digits and the unit. */
  lemma AmountHit(sign: char, t: string, d: nat)
    requires IsSign(sign) && AmountText(t, sign, d)
    ensures Sub(AmountRule(sign), t) == t[1..1 + d] + Unit(sign) + Sub(AmountRule(sign), t[1 + d..])
  {
    SubHit(AmountRule(sign), t, 1 + d, t[1..1 + d] + Unit(sign));
  }

  /** A range, once its rule gets to see it: `£a-£b` becomes `a to b pounds`, `$a-$b` `a to b dollars`. */
  lemma RangeHit(sign: char, t: string, a: nat, b: nat)
    requires IsSign(sign) && RangeText(t, sign, a, b)
    ensures Sub(RangeRule(sign), t) == t[1..1 + a] + " to " + t[3 + a..3 + a + b] + Unit(sign) + Sub(RangeRule(sign), t[3 + a + b..])
  {
    assert RangeRule(sign)(t) == RangeAt(sign, Unit(sign), t);
    SubHit(RangeRule(sign), t, 3 + a + b, t[1..1 + a] + " to " + t[3 + a..3 + a + b] + Unit(sign));
  }

  /** A text in which the first character of every match is missing is left unchanged. */
  ghost predicate StartsWith(f: Rule, c: char) {
    forall t :: HitsAt(f, t) ==> t[0] == c
  }

  /** A stretch without the first character of any match is copied, and the scan goes on after it. */
  lemma StartFreePrefix(f: Rule, c: char, x: string, y: string)
    requires StartsWith(f, c) && c !in x
    ensures Sub(f, x + y) == x + Sub(f, y)
  {
    var s := x + y;
    forall k | 0 <= k < |x| ensures !HitsAt(f, s[k..]) {
      assert s[k..][0] == x[k];
    }
    SubPrefix(f, s, |x|);
    assert s[..|x|] == x && s[|x|..] == y;
  }

  lemma AbsentStartUnchanged(f: Rule, c: char, s: string)
    requires StartsWith(f, c) && c !in s
    ensures Sub(f, s) == s
  {
    forall k | 0 <= k < |s| ensures !HitsAt(f, s[k..]) {
      assert s[k..][0] == s[k];
    }
    SubIdentity(f, s);
  }

  lemma MoneyRulesStartWithSign()
    ensures StartsWith(PoundsAt, '£') && StartsWith(PoundRangeAt, '£')
    ensures StartsWith(DollarsAt, '$') && StartsWith(DollarRangeAt, '$')
  {
  }

  /**
   * As written, the amount rule runs first and reads a range as two amounts,
   * leaving the dash between them.
   */
  lemma AmountSecond(sign: char, t: string, a: nat, b: nat)
    requires IsSign(sign) && RangeText(t, sign, a, b)
    ensures Sub(AmountRule(sign), t[2 + a..]) == t[3 + a..3 + a + b] + Unit(sign) + Sub(AmountRule(sign), t[3 + a + b..])
  {
    var v := t[2 + a..];
    RunFromShift(t, 2 + a, 1, IsDigit);
    AmountHit(sign, v, b);
    assert v[1..1 + b] == t[3 + a..3 + a + b];
    assert v[1 + b..] == t[3 + a + b..];
  }

  lemma AmountSkip(sign: char, u: string)
    requires IsSign(sign) && u != "" && u[0] != sign
    ensures Sub(AmountRule(sign), u) == [u[0]] + Sub(AmountRule(sign), u[1..])
  {
  }

  lemma Glue(whole: string, x: string, unit: string, tail: string, d: string, y: string, rest: string)
    requires whole == x + unit + tail && tail == d + (y + unit + rest)
    ensures whole == x + unit + d + y + unit + rest
  {
  }

  lemma AmountSplitRange(sign: char, t: string, a: nat, b: nat)
    requires IsSign(sign) && RangeText(t, sign, a, b)
    ensures Sub(AmountRule(sign), t) == t[1..1 + a] + Unit(sign) + "-" + t[3 + a..3 + a + b] + Unit(sign) + Sub(AmountRule(sign), t[3 + a + b..])
  {
    var f := AmountRule(sign);
    AmountHit(sign, t, a);
    AmountSkip(sign, t[1 + a..]);
    assert t[1 + a..][1..] == t[2 + a..];
    AmountSecond(sign, t, a, b);
    Glue(Sub(f, t), t[1..1 + a], Unit(sign), Sub(f, t[1 + a..]), "-", t[3 + a..3 + a + b], Sub(f, t[3 + a + b..]));
  }

  /** Digits, spaces and letters of the spoken units hold no currency sign. */
  lemma NoSignIn(sign: char, x: string, y: string)
    requires IsSign(sign)
    requires forall k :: 0 <= k < |x| ==> IsDigit(x[k])
    requires forall k :: 0 <= k < |y| ==> IsDigit(y[k])
    ensures var w := x + " to " + y + Unit(sign); '£' !in w && '$' !in w
    ensures var w := x + Unit(sign) + "-" + y + Unit(sign); '£' !in w && '$' !in w
  {
  }

  /** The four currency rules leave a text without currency signs unchanged. */
  lemma NoSignUnchanged(w: string)
    requires '£' !in w && '$' !in w
    ensures Sub(PoundsAt, w) == w && Sub(PoundRangeAt, w) == w
    ensures Sub(DollarsAt, w) == w && Sub(DollarRangeAt, w) == w
  {
    MoneyRulesStartWithSign();
    AbsentStartUnchanged(PoundsAt, '£', w);
    AbsentStartUnchanged(PoundRangeAt, '£', w);
    AbsentStartUnchanged(DollarsAt, '$', w);
    AbsentStartUnchanged(DollarRangeAt, '$', w);
  }

  /** A range of dollars holds no pound sign, so the pound rules leave it alone. */
  lemma DollarRangePoundFree(t: string, a: nat, b: nat)
    requires RangeText(t, '$', a, b) && |t| == 3 + a + b
    ensures Sub(PoundsAt, t) == t && Sub(PoundRangeAt, t) == t
  {
    RunFromMatches(t, 1, IsDigit);
    RunFromMatches(t, 3 + a, IsDigit);
    assert '£' !in t by {
      forall k | 0 <= k < |t| ensures t[k] != '£' {
        if 0 < k < 1 + a || 3 + a <= k {
          assert IsDigit(t[k]);
        }
      }
    }
    MoneyRulesStartWithSign();
    AbsentStartUnchanged(PoundsAt, '£', t);
    AbsentStartUnchanged(PoundRangeAt, '£', t);
  }

  /** The spoken form of a whole range holds no sign. */
  lemma RangeWordsSignFree(sign: char, t: string, a: nat, b: nat)
    requires IsSign(sign) && RangeText(t, sign, a, b) && |t| == 3 + a + b
    ensures var w := t[1..1 + a] + Unit(sign) + "-" + t[3 + a..] + Unit(sign); '£' !in w && '$' !in w
    ensures var w := t[1..1 + a] + " to " + t[3 + a..] + Unit(sign); '£' !in w && '$' !in w
  {
    RunFromMatches(t, 1, IsDigit);
    RunFromMatches(t, 3 + a, IsDigit);
    NoSignIn(sign, t[1..1 + a], t[3 + a..]);
  }

  /**
   * A whole text `£a-£b` or `$a-$b`, as written: `a pounds-b pounds` or
   * `a dollars-b dollars`, since no sign is left for the range rules.
   */
  lemma MoneyAsWrittenRange(sign: char, t: string, a: nat, b: nat)
    requires IsSign(sign) && RangeText(t, sign, a, b) && |t| == 3 + a + b
    ensures MoneyAsWritten(t) == t[1..1 + a] + Unit(sign) + "-" + t[3 + a..] + Unit(sign)
  {
    var w := t[1..1 + a] + Unit(sign) + "-" + t[3 + a..] + Unit(sign);
    assert Sub(AmountRule(sign), t) == w by {
      AmountSplitRange(sign, t, a, b);
      assert Sub(AmountRule(sign), t[3 + a + b..]) == "";
      assert t[3 + a..3 + a + b] == t[3 + a..];
    }
    RangeWordsSignFree(sign, t, a, b);
    NoSignUnchanged(w);
    if sign == '$' {
      DollarRangePoundFree(t, a, b);
    }
  }

  /** A whole text `£a-£b` or `$a-$b`, with the range rule first: `a to b pounds` or `a to b dollars`. */
  lemma MoneyRange(sign: char, t: string, a: nat, b: nat)
    requires IsSign(sign) && RangeText(t, sign, a, b) && |t| == 3 + a + b
    ensures Money(t) == t[1..1 + a] + " to " + t[3 + a..] + Unit(sign)
  {
    var w := t[1..1 + a] + " to " + t[3 + a..] + Unit(sign);
    assert Sub(RangeRule(sign), t) == w by {
      RangeHit(sign, t, a, b);
      assert Sub(RangeRule(sign), t[3 + a + b..]) == "";
      assert t[3 + a..3 + a + b] == t[3 + a..];
    }
    RangeWordsSignFree(sign, t, a, b);
    NoSignUnchanged(w);
    if sign == '$' {
      DollarRangePoundFree(t, a, b);
    }
  }

  /** Text without a sign passes the four rules unchanged, and the scan goes on after it. */
  lemma MoneyAsWrittenSignFree(x: string, y: string)
    requires '£' !in x && '$' !in x
    ensures MoneyAsWritten(x + y) == x + MoneyAsWritten(y)
  {
    MoneyRulesStartWithSign();
    var t1 := Sub(PoundsAt, y);
    var t2 := Sub(PoundRangeAt, t1);
    var t3 := Sub(DollarsAt, t2);
    StartFreePrefix(PoundsAt, '£', x, y);
    StartFreePrefix(PoundRangeAt, '£', x, t1);
    StartFreePrefix(DollarsAt, '$', x, t2);
    StartFreePrefix(DollarRangeAt, '$', x, t3);
  }

  /** An amount's spoken form holds no sign. */
  lemma AmountWordsSignFree(sign: char, t: string, d: nat)
    requires IsSign(sign) && AmountText(t, sign, d)
    ensures '£' !in t[1..1 + d] + Unit(sign) && '$' !in t[1..1 + d] + Unit(sign)
  {
    RunFromMatches(t, 1, IsDigit);
    NoSignIn(sign, t[1..1 + d], "");
    assert t[1..1 + d] + Unit(sign) + "-" + "" + Unit(sign) == (t[1..1 + d] + Unit(sign)) + ("-" + Unit(sign));
  }

  /** A pound amount at the start: its spoken form, then the rest, as written. */
  lemma PoundsFirst(t: string, d: nat)
    requires AmountText(t, '£', d)
    ensures MoneyAsWritten(t) == t[1..1 + d] + " pounds" + MoneyAsWritten(t[1 + d..])
  {
    var x := t[1..1 + d] + " pounds";
    var rest := t[1 + d..];
    AmountHit('£', t, d);
    AmountWordsSignFree('£', t, d);
    MoneyRulesStartWithSign();
    var t1 := Sub(PoundsAt, rest);
    var t2 := Sub(PoundRangeAt, t1);
    var t3 := Sub(DollarsAt, t2);
    StartFreePrefix(PoundRangeAt, '£', x, t1);
    StartFreePrefix(DollarsAt, '$', x, t2);
    StartFreePrefix(DollarRangeAt, '$', x, t3);
  }

  /** The two pound rules, run over a text. */
  function PoundRules(s: string): string { Sub(PoundRangeAt, Sub(PoundsAt, s)) }

  /** Text without `£` passes the pound rules unchanged, and the scan goes on after it. */
  lemma PoundRulesPrefix(x: string, y: string)
    requires '£' !in x
    ensures PoundRules(x + y) == x + PoundRules(y)
  {
    MoneyRulesStartWithSign();
    StartFreePrefix(PoundsAt, '£', x, y);
    StartFreePrefix(PoundRangeAt, '£', x, Sub(PoundsAt, y));
  }

  /** The pound rules keep a first character that is not `£`, and make nothing of nothing. */
  lemma PoundRulesKeepFirst(rest: string)
    requires rest == "" || rest[0] != '£'
    ensures rest == "" ==> PoundRules(rest) == ""
    ensures rest != "" ==> PoundRules(rest) != "" && PoundRules(rest)[0] == rest[0]
  {
    if rest != "" {
      assert [rest[0]] + rest[1..] == rest;
      PoundRulesPrefix([rest[0]], rest[1..]);
    }
  }

  /** A dollar sign and its digits hold no pound sign. */
  lemma DollarHeadPoundFree(t: string, d: nat)
    requires AmountText(t, '$', d)
    ensures '£' !in t[..1 + d]
  {
    RunFromMatches(t, 1, IsDigit);
    var head := t[..1 + d];
    forall k | 0 <= k < |head| ensures head[k] != '£' {
      if 0 < k {
        assert IsDigit(t[k]);
      }
    }
  }

  /** A text that agrees with an amount on the amount and on the character after it holds the same amount. */
  lemma AmountTextKept(t: string, u: string, d: nat)
    requires AmountText(t, '$', d) && |u| >= 1 + d && u[..1 + d] == t[..1 + d]
    requires |u| == 1 + d || (1 + d < |t| && u[1 + d] == t[1 + d])
    ensures AmountText(u, '$', d)
  {
    RunFromMatches(t, 1, IsDigit);
    forall k | 1 <= k < 1 + d ensures IsDigit(u[k]) {
      assert u[k] == u[..1 + d][k] == t[k];
    }
    assert u[0] == u[..1 + d][0] == t[0];
    RunFromOf(u, 1, d, IsDigit);
  }

  /** After the pound rules, the dollar sign and its digits are followed by what the pound rules made of the rest. */
  lemma DollarsAfterPoundRules(t: string, d: nat)
    requires AmountText(t, '$', d)
    requires 1 + d < |t| ==> t[1 + d] != '£'
    ensures PoundRules(t) == t[..1 + d] + PoundRules(t[1 + d..])
    ensures AmountText(t[..1 + d] + PoundRules(t[1 + d..]), '$', d)
  {
    var head, rest := t[..1 + d], t[1 + d..];
    DollarHeadPoundFree(t, d);
    assert head + rest == t;
    PoundRulesPrefix(head, rest);
    PoundRulesKeepFirst(rest);
    var u := head + PoundRules(rest);
    assert u[..1 + d] == head;
    if rest != "" {
      assert u[1 + d] == rest[0] == t[1 + d];
    }
    AmountTextKept(t, u, d);
  }

  /** A dollar amount at the start, not directly followed by `£`: its spoken form, then the rest, as written. */
  lemma DollarsFirst(t: string, d: nat)
    requires AmountText(t, '$', d)
    requires 1 + d < |t| ==> t[1 + d] != '£'
    ensures MoneyAsWritten(t) == t[1..1 + d] + " dollars" + MoneyAsWritten(t[1 + d..])
  {
    var rest := t[1 + d..];
    var t2 := PoundRules(rest);
    DollarsAfterPoundRules(t, d);
    var u := t[..1 + d] + t2;
    AmountHit('$', u, d);
    assert u[1..1 + d] == t[1..1 + d] && u[1 + d..] == t2;
    var x := t[1..1 + d] + " dollars";
    AmountWordsSignFree('$', t, d);
    MoneyRulesStartWithSign();
    StartFreePrefix(DollarRangeAt, '$', x, Sub(DollarsAt, t2));
  }

  /**
   * Lines 184 and 188 as written: an amount `£d` or `$d` at the start becomes
   * `d pounds` or `d dollars`, and the rest of the text is handled on its
   * own. A dollar amount directly followed by `£` is excluded: there the
   * pound rule runs first and its digits join the dollar amount.
   */
  lemma MoneyAsWrittenAmount(sign: char, t: string, d: nat)
    requires IsSign(sign) && AmountText(t, sign, d)
    requires sign == '$' && 1 + d < |t| ==> t[1 + d] != '£'
    ensures MoneyAsWritten(t) == t[1..1 + d] + Unit(sign) + MoneyAsWritten(t[1 + d..])
  {
    if sign == '£' {
      PoundsFirst(t, d);
    } else {
      DollarsFirst(t, d);
    }
  }

  /**
   * A sign followed by text that does not start with a digit: once the
   * amount rule of that sign has run over the text, the range rule still
   * finds no range at the sign. Either the text still starts with a
   * non-digit, or an amount was spelled out there and a space follows its
   * digits.
   */
  lemma AfterAmountPass(sign: char, y: string)
    requires IsSign(sign) && (y == "" || !IsDigit(y[0]))
    ensures RangeRule(sign)([sign] + Sub(AmountRule(sign), y)) == None
  {
    var u := Sub(AmountRule(sign), y);
    if y == "" {
      assert u == "";
      RunFromOf([sign] + u, 1, 0, IsDigit);
    } else if y[0] == sign && RunFrom(y, 1, IsDigit) > 0 {
      AfterAmountHit(sign, y, RunFrom(y, 1, IsDigit));
    } else {
      AfterAmountMiss(sign, y);
    }
  }

  /** An amount spelled out right after the sign: a space follows its digits, where a range needs `-`. */
  lemma AfterAmountHit(sign: char, y: string, d: nat)
    requires IsSign(sign) && AmountText(y, sign, d)
    ensures RangeRule(sign)([sign] + Sub(AmountRule(sign), y)) == None
  {
    var u := Sub(AmountRule(sign), y);
    var t := [sign] + u;
    AmountHit(sign, y, d);
    RunFromMatches(y, 1, IsDigit);
    forall k | 1 <= k < 1 + d ensures IsDigit(t[k]) {
      assert t[k] == u[k - 1] == y[k];
    }
    assert t[1 + d] == u[d] == ' ';
    RunFromOf(t, 1, d, IsDigit);
  }

  /** No amount right after the sign: the first character after it is kept, and it is no digit. */
  lemma AfterAmountMiss(sign: char, y: string)
    requires IsSign(sign) && y != "" && !IsDigit(y[0])
    requires y[0] != sign || RunFrom(y, 1, IsDigit) == 0
    ensures RangeRule(sign)([sign] + Sub(AmountRule(sign), y)) == None
  {
    var u := Sub(AmountRule(sign), y);
    var t := [sign] + u;
    assert u == [y[0]] + Sub(AmountRule(sign), y[1..]);
    assert t[1] == y[0];
    RunFromOf(t, 1, 0, IsDigit);
  }

  /** A currency sign that no digit follows stays as it is, and the step goes on after it. */
  lemma BarePound(y: string)
    requires y == "" || !IsDigit(y[0])
    ensures MoneyAsWritten("£" + y) == "£" + MoneyAsWritten(y)
  {
    var t1 := Sub(PoundsAt, y);
    RunFromOf("£" + y, 1, 0, IsDigit);
    assert ("£" + y)[1..] == y;
    assert Sub(PoundsAt, "£" + y) == "£" + t1;
    AfterAmountPass('£', y);
    assert ("£" + t1)[1..] == t1;
    var t2 := Sub(PoundRangeAt, t1);
    assert Sub(PoundRangeAt, "£" + t1) == "£" + t2;
    MoneyRulesStartWithSign();
    StartFreePrefix(DollarsAt, '$', "£", t2);
    StartFreePrefix(DollarRangeAt, '$', "£", Sub(DollarsAt, t2));
  }

  lemma BareDollar(y: string)
    requires y == "" || (!IsDigit(y[0]) && y[0] != '£')
    ensures MoneyAsWritten("$" + y) == "$" + MoneyAsWritten(y)
  {
    PoundRulesPrefix("$", y);
    PoundRulesKeepFirst(y);
    var t2 := PoundRules(y);
    RunFromOf("$" + t2, 1, 0, IsDigit);
    assert ("$" + t2)[1..] == t2;
    assert Sub(DollarsAt, "$" + t2) == "$" + Sub(DollarsAt, t2);
    AfterAmountPass('$', t2);
    var t3 := Sub(DollarsAt, t2);
    assert ("$" + t3)[1..] == t3;
    assert Sub(DollarRangeAt, "$" + t3) == "$" + Sub(DollarRangeAt, t3);
  }

  /**
   * Lines 184-189 as written, at a sign that no digit follows: `£` or `$`
   * stays as it is, and the rest of the text is handled on its own. A `$`
   * directly followed by `£` is excluded: there the pound rule can put
   * digits right after the `$`.
   */
  lemma MoneyAsWrittenBareSign(sign: char, y: string)
    requires IsSign(sign)
    requires y == "" || (!IsDigit(y[0]) && (sign == '$' ==> y[0] != '£'))
    ensures MoneyAsWritten([sign] + y) == [sign] + MoneyAsWritten(y)
  {
    if sign == '£' {
      BarePound(y);
    } else {
      BareDollar(y);
    }
  }

  /** Digits, then text that starts with no digit. */
  predicate DigitsThen(d: string, w: string) {
    d != "" && (forall k :: 0 <= k < |d| ==> IsDigit(d[k])) && (w == "" || !IsDigit(w[0]))
  }

  /** A sign, digits, then text that starts with no digit is an amount of exactly those digits. */
  lemma AmountOfDigits(sign: char, d: string, w: string)
    requires DigitsThen(d, w)
    ensures AmountText([sign] + d + w, sign, |d|) && ([sign] + d + w)[1..1 + |d|] == d && ([sign] + d + w)[1 + |d|..] == w
  {
    var t := [sign] + d + w;
    forall k | 1 <= k < 1 + |d| ensures IsDigit(t[k]) {
      assert t[k] == d[k - 1];
    }
    if w != "" {
      assert t[1 + |d|] == w[0];
    }
    RunFromOf(t, 1, |d|, IsDigit);
  }

  /** The pound amount after the `$` is spelled out, leaving its digits right after the `$`. */
  lemma PoundPassJoins(d: string, w: string)
    requires DigitsThen(d, w) && '£' !in w && '$' !in w
    ensures Sub(PoundsAt, "$" + ("£" + d + w)) == "$" + d + (" pounds" + w)
  {
    var y := "£" + d + w;
    AmountSkip('£', "$" + y);
    assert ("$" + y)[1..] == y;
    AmountOfDigits('£', d, w);
    AmountHit('£', y, |d|);
    NoSignUnchanged(w);
    ConcatAssoc("$", d + " pounds", w);
    ConcatAssoc("$", d, " pounds");
    ConcatAssoc("$" + d, " pounds", w);
  }

  /** No `£` is left for the pound range rule. */
  lemma PoundRangePassKeeps(d: string, w: string)
    requires DigitsThen(d, w) && '£' !in w && '$' !in w
    ensures Sub(PoundRangeAt, "$" + d + (" pounds" + w)) == "$" + d + (" pounds" + w)
  {
    DigitsSignFree(d);
    PoundRangeUnchanged("$" + d + (" pounds" + w));
  }

  /** The digits after the `$` then read as dollars, before the pounds. */
  lemma DollarPassJoins(d: string, w: string)
    requires DigitsThen(d, w) && '£' !in w && '$' !in w
    ensures Sub(DollarsAt, "$" + d + (" pounds" + w)) == d + " dollars" + (" pounds" + w)
  {
    var rest := " pounds" + w;
    assert DigitsThen(d, rest) by {
      assert rest[0] == ' ';
    }
    AmountOfDigits('$', d, rest);
    AmountHit('$', "$" + d + rest, |d|);
    NoSignUnchanged(rest);
  }

  /** No `$` is left for the dollar range rule. */
  lemma DollarRangePassKeeps(d: string, w: string)
    requires DigitsThen(d, w) && '£' !in w && '$' !in w
    ensures Sub(DollarRangeAt, d + " dollars" + (" pounds" + w)) == d + " dollars" + (" pounds" + w)
  {
    DigitsSignFree(d);
    NoSignUnchanged(d + " dollars" + (" pounds" + w));
  }

  lemma PoundRangeUnchanged(s: string)
    requires '£' !in s
    ensures Sub(PoundRangeAt, s) == s
  {
    MoneyRulesStartWithSign();
    AbsentStartUnchanged(PoundRangeAt, '£', s);
  }

  /**
   * As written, `$£d` reads `d dollars pounds`: the pound rule runs first and
   * leaves the digits right after the `$`.
   */
  lemma DollarBeforePound(d: string, w: string)
    requires DigitsThen(d, w) && '£' !in w && '$' !in w
    ensures MoneyAsWritten("$" + ("£" + d + w)) == d + " dollars" + (" pounds" + w)
  {
    PoundPassJoins(d, w);
    PoundRangePassKeeps(d, w);
    DollarPassJoins(d, w);
    DollarRangePassKeeps(d, w);
    FourPasses("$" + ("£" + d + w), "$" + d + (" pounds" + w), "$" + d + (" pounds" + w),
      d + " dollars" + (" pounds" + w), d + " dollars" + (" pounds" + w));
  }

  lemma DigitsSignFree(d: string)
    requires forall k :: 0 <= k < |d| ==> IsDigit(d[k])
    ensures '£' !in d && '$' !in d
  {
    forall k | 0 <= k < |d| ensures d[k] != '£' && d[k] != '$' {
      assert IsDigit(d[k]);
    }
  }

  /** The four passes of the step, one result after the other. */
  lemma FourPasses(t0: string, t1: string, t2: string, t3: string, t4: string)
    requires Sub(PoundsAt, t0) == t1 && Sub(PoundRangeAt, t1) == t2
    requires Sub(DollarsAt, t2) == t3 && Sub(DollarRangeAt, t3) == t4
    ensures MoneyAsWritten(t0) == t4
  {
  }

  // ---------------------------------------------------------------- no digit, no change

  /** Every match of a rule of this function starts with a digit or with a sign and a digit. */
  ghost predicate NeedsDigit(f: Rule) {
    forall t :: HitsAt(f, t) ==> |t| >= 2 && (IsDigit(t[0]) || IsDigit(t[1]))
  }

  lemma NoDigitUnchanged(f: Rule, s: string)
    requires NeedsDigit(f) && NoDigit(s)
    ensures Sub(f, s) == s
  {
    forall k | 0 <= k < |s| ensures !HitsAt(f, s[k..]) {
    }
    SubIdentity(f, s);
  }

  lemma AmountNeedsDigit(sign: char, unit: string, t: string)
    requires AmountAt(sign, unit, t).Some?
    ensures |t| >= 2 && IsDigit(t[1])
  {
  }

  lemma RangeNeedsDigit(sign: char, unit: string, t: string)
    requires RangeAt(sign, unit, t).Some?
    ensures |t| >= 2 && IsDigit(t[1])
  {
  }

  lemma HourNeedsDigit(m: Meridiem, t: string)
    requires HourAt(m, t).Some?
    ensures |t| >= 2 && IsDigit(t[0])
  {
  }

  lemma ClockNeedsDigit(m: Meridiem, t: string)
    requires ClockAt(m, t).Some?
    ensures |t| >= 2 && IsDigit(t[0])
  {
  }

  /** Every currency rule needs a digit. */
  lemma MoneyRulesNeedDigits()
    ensures NeedsDigit(PoundsAt) && NeedsDigit(PoundRangeAt) && NeedsDigit(DollarsAt) && NeedsDigit(DollarRangeAt)
  {
    forall t | HitsAt(PoundsAt, t) ensures |t| >= 2 && IsDigit(t[1]) { AmountNeedsDigit('£', " pounds", t); }
    forall t | HitsAt(DollarsAt, t) ensures |t| >= 2 && IsDigit(t[1]) { AmountNeedsDigit('$', " dollars", t); }
    forall t | HitsAt(PoundRangeAt, t) ensures |t| >= 2 && IsDigit(t[1]) { RangeNeedsDigit('£', " pounds", t); }
    forall t | HitsAt(DollarRangeAt, t) ensures |t| >= 2 && IsDigit(t[1]) { RangeNeedsDigit('$', " dollars", t); }
  }

  /** The percentage rule and every time rule need a digit. */
  lemma NumberRulesNeedDigits()
    ensures NeedsDigit(PercentAt) && NeedsDigit(AmAt) && NeedsDigit(PmAt)
    ensures NeedsDigit(ClockAmAt) && NeedsDigit(ClockPmAt) && NeedsDigit(ClockPmDotsAt)
  {
    forall t | HitsAt(AmAt, t) ensures |t| >= 2 && IsDigit(t[0]) { HourNeedsDigit(Am, t); }
    forall t | HitsAt(PmAt, t) ensures |t| >= 2 && IsDigit(t[0]) { HourNeedsDigit(Pm, t); }
    forall t | HitsAt(ClockAmAt, t) ensures |t| >= 2 && IsDigit(t[0]) { ClockNeedsDigit(Am, t); }
    forall t | HitsAt(ClockPmAt, t) ensures |t| >= 2 && IsDigit(t[0]) { ClockNeedsDigit(Pm, t); }
    forall t | HitsAt(ClockPmDotsAt, t) ensures |t| >= 2 && IsDigit(t[0]) { ClockNeedsDigit(PmDots, t); }
  }

  /** A text without digits has no amount, percentage or time, and is returned unchanged. */
  lemma NoDigitCurrencyUnchanged(text: string)
    requires NoDigit(text)
    ensures CurrencyAndNumbers(text) == text
    ensures CurrencyAndNumbersAsWritten(text) == text
  {
    MoneyRulesNeedDigits();
    NumberRulesNeedDigits();
    NoDigitUnchanged(PoundRangeAt, text);
    NoDigitUnchanged(PoundsAt, text);
    NoDigitUnchanged(DollarRangeAt, text);
    NoDigitUnchanged(DollarsAt, text);
    NoDigitUnchanged(PercentAt, text);
    NoDigitUnchanged(AmAt, text);
    NoDigitUnchanged(PmAt, text);
    NoDigitUnchanged(ClockAmAt, text);
    NoDigitUnchanged(ClockPmAt, text);
    NoDigitUnchanged(ClockPmDotsAt, text);
  }

  // ---------------------------------------------------------------- the numbers are kept

  lemma {:induction false} NoDigitCount(s: string, c: char)
    requires NoDigit(s) && IsDigit(c)
    ensures multiset(s)[c] == 0
    decreases |s|
  {
    if s != "" {
      NoDigitCount(s[1..], c);
      assert s == [s[0]] + s[1..];
    }
  }

  /** A replacement that keeps a part of its match and swaps the rest for text without `c`. */
  lemma CountShape(c: char, keep: string, dropped: string, added: string, matched: string, rep: string)
    requires matched == keep + dropped && rep == keep + added
    requires multiset(dropped)[c] == 0 && multiset(added)[c] == 0
    ensures multiset(rep)[c] == multiset(matched)[c]
  {
  }

  /** The same, for a replacement that keeps two parts of its match. */
  lemma CountShape2(c: char, d0: string, x: string, d1: string, y: string, a0: string, a1: string, matched: string, rep: string)
    requires matched == d0 + x + d1 + y && rep == x + a0 + y + a1
    requires multiset(d0)[c] == 0 && multiset(d1)[c] == 0 && multiset(a0)[c] == 0 && multiset(a1)[c] == 0
    ensures multiset(rep)[c] == multiset(matched)[c]
  {
  }

  /** An amount keeps its digits and drops only the sign. */
  lemma AmountKeepsDigit(sign: char, unit: string, t: string, c: char)
    requires IsDigit(c) && !IsDigit(sign) && NoDigit(unit) && AmountAt(sign, unit, t).Some?
    ensures multiset(AmountAt(sign, unit, t).value.rep)[c] == multiset(t[..AmountAt(sign, unit, t).value.len])[c]
  {
    var h := AmountAt(sign, unit, t).value;
    var r := RunFrom(t, 1, IsDigit);
    assert h.rep == t[1..1 + r] + unit && h.len == 1 + r;
    assert t[..h.len] == [t[0]] + t[1..1 + r];
    NoDigitCount([t[0]], c);
    NoDigitCount(unit, c);
    CountShape2(c, [t[0]], t[1..1 + r], "", "", unit, "", t[..h.len], h.rep);
  }

  /** A range keeps both runs of digits and drops the signs and the dash. */
  lemma RangeKeepsDigit(sign: char, unit: string, t: string, c: char)
    requires IsDigit(c) && !IsDigit(sign) && NoDigit(unit) && RangeAt(sign, unit, t).Some?
    ensures multiset(RangeAt(sign, unit, t).value.rep)[c] == multiset(t[..RangeAt(sign, unit, t).value.len])[c]
  {
    var h := RangeAt(sign, unit, t).value;
    var i := 1 + RunFrom(t, 1, IsDigit);
    var j := i + 2 + RunFrom(t, i + 2, IsDigit);
    assert h.rep == t[1..i] + " to " + t[i + 2..j] + unit && h.len == j;
    assert t[..j] == [t[0]] + t[1..i] + t[i..i + 2] + t[i + 2..j];
    NoDigitCount([t[0]], c);
    NoDigitCount(t[i..i + 2], c);
    NoDigitCount(" to ", c);
    NoDigitCount(unit, c);
    CountShape2(c, [t[0]], t[1..i], t[i..i + 2], t[i + 2..j], " to ", unit, t[..h.len], h.rep);
  }

  /** A percentage keeps its digits and drops the `%`. */
  lemma PercentKeepsDigit(t: string, c: char)
    requires IsDigit(c) && PercentAt(t).Some?
    ensures multiset(PercentAt(t).value.rep)[c] == multiset(t[..PercentAt(t).value.len])[c]
  {
    var h := PercentAt(t).value;
    var r := RunFrom(t, 0, IsDigit);
    assert h.rep == t[..r] + " percent" && h.len == r + 1;
    assert t[..h.len] == t[..r] + [t[r]];
    NoDigitCount([t[r]], c);
    NoDigitCount(" percent", c);
    CountShape(c, t[..r], [t[r]], " percent", t[..h.len], h.rep);
  }

  lemma MeridiemCount(t: string, i: nat, m: Meridiem, c: char)
    requires IsDigit(c) && MeridiemAt(t, i, m)
    ensures i + MeridiemLength(m) <= |t| && multiset(t[i..i + MeridiemLength(m)])[c] == 0
  {
    NoDigitCount(t[i..i + MeridiemLength(m)], c);
  }

  /** An hour keeps its digits and replaces the letters of `am` or `pm`. */
  lemma HourKeepsDigit(m: Meridiem, t: string, c: char)
    requires IsDigit(c) && HourAt(m, t).Some?
    ensures multiset(HourAt(m, t).value.rep)[c] == multiset(t[..HourAt(m, t).value.len])[c]
  {
    var h := HourAt(m, t).value;
    var k := Hour(t);
    var n := k + MeridiemLength(m);
    assert h.rep == t[..k] + Spoken(m) && h.len == n;
    assert t[..n] == t[..k] + t[k..n];
    MeridiemCount(t, k, m, c);
    NoDigitCount(Spoken(m), c);
    CountShape(c, t[..k], t[k..n], Spoken(m), t[..h.len], h.rep);
  }

  lemma SpacesCount(t: string, i: nat, c: char)
    requires IsDigit(c) && i <= |t|
    ensures i + RunFrom(t, i, IsSpace) <= |t| && multiset(t[i..i + RunFrom(t, i, IsSpace)])[c] == 0
  {
    RunFromMatches(t, i, IsSpace);
    NoDigitCount(t[i..i + RunFrom(t, i, IsSpace)], c);
  }

  /** What a clock time match is made of: `h:mm`, spaces, then the letters. */
  lemma ClockFacts(m: Meridiem, t: string)
    requires ClockAt(m, t).Some?
    ensures Hour(t) + 3 <= |t|
    ensures MeridiemAt(t, ClockEnd(t, Hour(t)), m)
    ensures ClockAt(m, t).value.len == ClockEnd(t, Hour(t)) + MeridiemLength(m)
    ensures ClockAt(m, t).value.rep == t[..Hour(t) + 3] + Spoken(m)
  {
  }

  /** A prefix of `t` kept, the next two slices of `t` replaced by `added`, none of which holds `c`. */
  lemma CountPrefix(t: string, i: nat, j: nat, n: nat, added: string, c: char)
    requires i <= j <= n <= |t|
    requires multiset(t[i..j])[c] == 0 && multiset(t[j..n])[c] == 0 && multiset(added)[c] == 0
    ensures multiset(t[..i] + added)[c] == multiset(t[..n])[c]
  {
    assert t[..n] == t[..i] + t[i..j] + t[j..n];
  }

  lemma SpokenCount(m: Meridiem, c: char)
    requires IsDigit(c)
    ensures multiset(Spoken(m))[c] == 0
  {
    NoDigitCount(Spoken(m), c);
  }

  lemma ClockCount(t: string, i: nat, j: nat, m: Meridiem, c: char)
    requires IsDigit(c) && i <= |t| && j == i + RunFrom(t, i, IsSpace) && MeridiemAt(t, j, m)
    ensures multiset(t[..i] + Spoken(m))[c] == multiset(t[..j + MeridiemLength(m)])[c]
  {
    SpacesCount(t, i, c);
    MeridiemCount(t, j, m, c);
    SpokenCount(m, c);
    CountPrefix(t, i, j, j + MeridiemLength(m), Spoken(m), c);
  }

  /** A clock time keeps `h:mm` and replaces the spaces and the letters after it. */
  lemma ClockKeepsDigit(m: Meridiem, t: string, c: char)
    requires IsDigit(c) && ClockAt(m, t).Some?
    ensures multiset(ClockAt(m, t).value.rep)[c] == multiset(t[..ClockAt(m, t).value.len])[c]
  {
    ClockFacts(m, t);
    ClockHitCount(ClockAt(m, t).value, t, Hour(t) + 3, ClockEnd(t, Hour(t)), m, c);
  }

  /** A hit made of `t[..i]` and the spoken meridiem, over the spaces and the letters, keeps the count of a digit. */
  lemma ClockHitCount(h: Hit, t: string, i: nat, j: nat, m: Meridiem, c: char)
    requires IsDigit(c) && i <= |t| && j == i + RunFrom(t, i, IsSpace) && MeridiemAt(t, j, m)
    requires h.rep == t[..i] + Spoken(m) && h.len == j + MeridiemLength(m)
    ensures h.len <= |t| && multiset(h.rep)[c] == multiset(t[..h.len])[c]
  {
    ClockCount(t, i, j, m, c);
  }

  /** Every currency rule keeps the count of each digit. */
  lemma MoneyRulesKeepDigits(c: char)
    requires IsDigit(c)
    ensures CountKept(PoundsAt, c) && CountKept(PoundRangeAt, c) && CountKept(DollarsAt, c) && CountKept(DollarRangeAt, c)
  {
    forall t | HitsAt(PoundsAt, t) ensures multiset(PoundsAt(t).value.rep)[c] == multiset(t[..PoundsAt(t).value.len])[c] {
      AmountKeepsDigit('£', " pounds", t, c);
    }
    forall t | HitsAt(DollarsAt, t) ensures multiset(DollarsAt(t).value.rep)[c] == multiset(t[..DollarsAt(t).value.len])[c] {
      AmountKeepsDigit('$', " dollars", t, c);
    }
    forall t | HitsAt(PoundRangeAt, t) ensures multiset(PoundRangeAt(t).value.rep)[c] == multiset(t[..PoundRangeAt(t).value.len])[c] {
      RangeKeepsDigit('£', " pounds", t, c);
    }
    forall t | HitsAt(DollarRangeAt, t) ensures multiset(DollarRangeAt(t).value.rep)[c] == multiset(t[..DollarRangeAt(t).value.len])[c] {
      RangeKeepsDigit('$', " dollars", t, c);
    }
  }

  /** The percentage rule and every time rule keep the count of each digit. */
  lemma NumberRulesKeepDigits(c: char)
    requires IsDigit(c)
    ensures CountKept(PercentAt, c) && CountKept(AmAt, c) && CountKept(PmAt, c)
    ensures CountKept(ClockAmAt, c) && CountKept(ClockPmAt, c) && CountKept(ClockPmDotsAt, c)
  {
    forall t | HitsAt(PercentAt, t) ensures multiset(PercentAt(t).value.rep)[c] == multiset(t[..PercentAt(t).value.len])[c] {
      PercentKeepsDigit(t, c);
    }
    forall t | HitsAt(AmAt, t) ensures multiset(AmAt(t).value.rep)[c] == multiset(t[..AmAt(t).value.len])[c] {
      HourKeepsDigit(Am, t, c);
    }
    forall t | HitsAt(PmAt, t) ensures multiset(PmAt(t).value.rep)[c] == multiset(t[..PmAt(t).value.len])[c] {
      HourKeepsDigit(Pm, t, c);
    }
    forall t | HitsAt(ClockAmAt, t) ensures multiset(ClockAmAt(t).value.rep)[c] == multiset(t[..ClockAmAt(t).value.len])[c] {
      ClockKeepsDigit(Am, t, c);
    }
    forall t | HitsAt(ClockPmAt, t) ensures multiset(ClockPmAt(t).value.rep)[c] == multiset(t[..ClockPmAt(t).value.len])[c] {
      ClockKeepsDigit(Pm, t, c);
    }
    forall t | HitsAt(ClockPmDotsAt, t) ensures multiset(ClockPmDotsAt(t).value.rep)[c] == multiset(t[..ClockPmDotsAt(t).value.len])[c] {
      ClockKeepsDigit(PmDots, t, c);
    }
  }

  /** The percentage and time rules keep every digit. */
  lemma NumbersAndTimesKeepDigits(text: string, c: char)
    requires IsDigit(c)
    ensures multiset(NumbersAndTimes(text))[c] == multiset(text)[c]
  {
    NumberRulesKeepDigits(c);
    var t1 := Sub(PercentAt, text);
    var t2 := Sub(AmAt, t1);
    var t3 := Sub(PmAt, t2);
    var t4 := Sub(ClockAmAt, t3);
    var t5 := Sub(ClockPmAt, t4);
    SubKeepsCount(PercentAt, text, c);
    SubKeepsCount(AmAt, t1, c);
    SubKeepsCount(PmAt, t2, c);
    SubKeepsCount(ClockAmAt, t3, c);
    SubKeepsCount(ClockPmAt, t4, c);
    SubKeepsCount(ClockPmDotsAt, t5, c);
  }

  /**
   * Spelling out amounts, percentages and times never adds, drops or changes
   * a digit: each digit occurs as often in the result as in the text, with
   * the rules in either order.
   */
  lemma CurrencyKeepsDigits(text: string, c: char)
    requires IsDigit(c)
    ensures multiset(CurrencyAndNumbers(text))[c] == multiset(text)[c]
    ensures multiset(CurrencyAndNumbersAsWritten(text))[c] == multiset(text)[c]
  {
    MoneyRulesKeepDigits(c);
    var m1 := Sub(PoundRangeAt, text);
    var m2 := Sub(PoundsAt, m1);
    var m3 := Sub(DollarRangeAt, m2);
    SubKeepsCount(PoundRangeAt, text, c);
    SubKeepsCount(PoundsAt, m1, c);
    SubKeepsCount(DollarRangeAt, m2, c);
    SubKeepsCount(DollarsAt, m3, c);
    NumbersAndTimesKeepDigits(Money(text), c);
    var w1 := Sub(PoundsAt, text);
    var w2 := Sub(PoundRangeAt, w1);
    var w3 := Sub(DollarsAt, w2);
    SubKeepsCount(PoundsAt, text, c);
    SubKeepsCount(PoundRangeAt, w1, c);
    SubKeepsCount(DollarsAt, w2, c);
    SubKeepsCount(DollarRangeAt, w3, c);
    NumbersAndTimesKeepDigits(MoneyAsWritten(text), c);
  }
}
