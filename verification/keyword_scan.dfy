/**
 * The three case-insensitive regular expressions the insert-JCL command
 * applies to a JCL line or selection:
 *   /LRECL\s*=\s*(\d+)/i      the record length,
 *   /RECFM\s*=\s*([A-Z]+)/i   the record format,
 *   /(BLKSIZE\s*=\s*)(\d*)/i  the block size, whose digit run is replaced.
 * None of them has the global flag, so each finds (or rewrites) only its
 * leftmost match. `\s` is ECMAScript white space plus line terminators.
 * Without the unicode flag, `/i` never folds a non-ASCII character onto an
 * ASCII one, and every pattern here is ASCII, so folding ASCII letters is
 * all that decides a match.
 */
module KeywordScan {
  import opened Wrappers
  import opened Decimal

  datatype CharClass = Space | Digit | Letter

  /** The class a pattern's value run is drawn from. */
  type ValueClass = c: CharClass | c != Space witness Digit

  /** ECMAScript `\s`: WhiteSpace and LineTerminator code points. */
  predicate IsRegexSpace(c: char) {
    var k := c as int;
    || k == 0x09 || k == 0x0A || k == 0x0B || k == 0x0C || k == 0x0D
    || k == 0x20 || k == 0xA0 || k == 0x1680 || 0x2000 <= k <= 0x200A
    || k == 0x2028 || k == 0x2029 || k == 0x202F || k == 0x205F
    || k == 0x3000 || k == 0xFEFF
  }

  /** `[A-Z]` under `/i`. */
  predicate IsAsciiLetter(c: char) {
    'A' <= c <= 'Z' || 'a' <= c <= 'z'
  }

  predicate InClass(c: char, cls: CharClass) {
    match cls
    case Space => IsRegexSpace(c)
    case Digit => IsDigit(c)
    case Letter => IsAsciiLetter(c)
  }

  /** The ASCII capital of a letter; every other character stays as it is. */
  function UpperAscii(c: char): (u: char)
    ensures IsAsciiLetter(c) <==> 'A' <= u <= 'Z'
    ensures !IsAsciiLetter(c) ==> u == c
    // a capital stays, a small letter moves down by 32 code points to its capital
    ensures u == c || u as int + 32 == c as int
  {
    if 'a' <= c <= 'z' then (c as int - 32) as char else c
  }

  /** `key` (written in capitals) occurs at `i`, ignoring ASCII case. */
  predicate KeyAt(s: string, i: nat, key: string) {
    i + |key| <= |s| && forall j :: 0 <= j < |key| ==> UpperAscii(s[i + j]) == key[j]
  }

  /** `KEY\s*=\s*` followed by a run of `value` characters, non-empty when `nonEmpty`. */
  datatype Pattern = Pattern(key: string, value: ValueClass, nonEmpty: bool)

  const LreclPattern: Pattern := Pattern("LRECL", Digit, true)
  const RecfmPattern: Pattern := Pattern("RECFM", Letter, true)
  const BlksizePattern: Pattern := Pattern("BLKSIZE", Digit, false)

  /** Where a match starts, where its `=` is, and the bounds of its value run. */
  datatype Match = Match(start: nat, eqAt: nat, valueStart: nat, valueEnd: nat)

  predicate AllIn(s: string, i: nat, j: nat, cls: CharClass)
    requires i <= j <= |s|
  {
    forall k :: i <= k < j ==> InClass(s[k], cls)
  }

  /** Any way, greedy or not, the pattern can match `s` at `m.start`. */
  predicate IsMatch(s: string, p: Pattern, m: Match) {
    && KeyAt(s, m.start, p.key)
    && m.start + |p.key| <= m.eqAt < m.valueStart <= m.valueEnd <= |s|
    && AllIn(s, m.start + |p.key|, m.eqAt, Space)
    && s[m.eqAt] == '='
    && AllIn(s, m.eqAt + 1, m.valueStart, Space)
    && AllIn(s, m.valueStart, m.valueEnd, p.value)
    && (p.nonEmpty ==> m.valueStart < m.valueEnd)
  }

  /** A match whose `\s*` after `=` and whose value run cannot be extended. */
  predicate IsGreedyMatch(s: string, p: Pattern, m: Match) {
    && IsMatch(s, p, m)
    && (m.valueStart == |s| || !IsRegexSpace(s[m.valueStart]))
    && (m.valueEnd == |s| || !InClass(s[m.valueEnd], p.value))
  }

  /** `m` reaches at least as far as `other`, from the same `=`. */
  predicate Covers(m: Match, other: Match) {
    other.eqAt == m.eqAt && other.valueStart <= m.valueStart && other.valueEnd <= m.valueEnd
  }

  /**
   * The match a backtracking engine reports: the leftmost start, and at that
   * start the greedy choice, which covers every other match there.
   */
  ghost predicate IsRegexMatch(s: string, p: Pattern, m: Match) {
    && IsGreedyMatch(s, p, m)
    && (forall m' :: IsMatch(s, p, m') ==> m.start <= m'.start)
    && (forall m' :: IsMatch(s, p, m') && m'.start == m.start ==> Covers(m, m'))
  }

  /** End of the run of `cls` characters that starts at `i`. */
  function RunEnd(s: string, i: nat, cls: CharClass): (j: nat)
    requires i <= |s|
    ensures i <= j <= |s|
    ensures AllIn(s, i, j, cls)
    ensures j < |s| ==> !InClass(s[j], cls)
    decreases |s| - i
  {
    if i == |s| || !InClass(s[i], cls) then i else RunEnd(s, i + 1, cls)
  }

  /** Trying the pattern at one position, `\s*` and the value run taken greedily. */
  function MatchAt(s: string, i: nat, p: Pattern): (r: Option<Match>)
    ensures r.Some? ==> r.value.start == i && IsGreedyMatch(s, p, r.value)
    ensures r.Some? ==> forall m :: IsMatch(s, p, m) && m.start == i ==> Covers(r.value, m)
    ensures r.None? ==> forall m :: IsMatch(s, p, m) ==> m.start != i
  {
    if !KeyAt(s, i, p.key) then None
    else
      var eq := RunEnd(s, i + |p.key|, Space);
      if eq == |s| || s[eq] != '=' then None
      else
        var vs := RunEnd(s, eq + 1, Space);
        var ve := RunEnd(s, vs, p.value);
        forall m | IsMatch(s, p, m) && m.start == i
          ensures m.eqAt == eq && m.valueStart <= vs
          ensures m.valueStart < m.valueEnd ==> m.valueStart == vs
        {
          SameSeparator(s, p, m, eq, vs);
        }
        if p.nonEmpty && ve == vs then None
        else Some(Match(i, eq, vs, ve))
  }

  /** Any match at a position has its `=` where the greedy scan finds it. */
  lemma SameSeparator(s: string, p: Pattern, m: Match, eq: nat, vs: nat)
    requires IsMatch(s, p, m)
    requires m.start + |p.key| <= |s| && eq == RunEnd(s, m.start + |p.key|, Space)
    requires eq < |s| && vs == RunEnd(s, eq + 1, Space)
    ensures m.eqAt == eq && m.valueStart <= vs
    ensures m.valueStart < m.valueEnd ==> m.valueStart == vs
  {
    assert !IsRegexSpace('=');
    assert eq <= m.eqAt;
    assert m.eqAt <= eq;
    if m.valueStart < m.valueEnd {
      assert InClass(s[m.valueStart], p.value);
      assert !IsRegexSpace(s[m.valueStart]);
    }
  }

  /** The leftmost match starting at `i` or later. */
  function SearchFrom(s: string, p: Pattern, i: nat): (r: Option<Match>)
    requires i <= |s|
    ensures r.Some? ==> i <= r.value.start && MatchAt(s, r.value.start, p) == r
    ensures r.Some? ==> forall m :: IsMatch(s, p, m) && i <= m.start ==> r.value.start <= m.start
    ensures r.None? ==> forall m :: IsMatch(s, p, m) ==> m.start < i
    decreases |s| - i
  {
    if i == |s| then None
    else
      match MatchAt(s, i, p)
      case Some(m) => Some(m)
      case None => SearchFrom(s, p, i + 1)
  }

  /** `s.match(regex)` / `s.replace(regex, ...)` locating their one match. */
  function FirstMatch(s: string, p: Pattern): (r: Option<Match>)
    ensures r.Some? ==> IsRegexMatch(s, p, r.value)
    ensures r.None? <==> forall m :: !IsMatch(s, p, m)
  {
    SearchFrom(s, p, 0)
  }

  /** At one position there is at most one greedy match. */
  lemma GreedyUnique(s: string, p: Pattern, m1: Match, m2: Match)
    requires IsGreedyMatch(s, p, m1) && IsGreedyMatch(s, p, m2) && m1.start == m2.start
    ensures m1 == m2
  {
    assert !IsRegexSpace('=');
    assert m1.eqAt == m2.eqAt;
    assert m1.valueStart == m2.valueStart;
  }

  /** The regular-expression match, when there is one, is unique. */
  lemma RegexMatchUnique(s: string, p: Pattern, m1: Match, m2: Match)
    requires IsRegexMatch(s, p, m1) && IsRegexMatch(s, p, m2)
    ensures m1 == m2
  {
  }

  function MatchedValue(s: string, m: Match): string
    requires m.valueStart <= m.valueEnd <= |s|
  {
    s[m.valueStart..m.valueEnd]
  }

  /** `parseInt` of the digits captured by `/LRECL\s*=\s*(\d+)/i`. */
  function DetectLrecl(text: string): (r: Option<nat>)
    ensures r.None? <==> forall m :: !IsMatch(text, LreclPattern, m)
    ensures r.Some? ==> exists m :: (IsRegexMatch(text, LreclPattern, m)
      && AllDigits(MatchedValue(text, m)) && r.value == ParseDigits(MatchedValue(text, m)))
  {
    match FirstMatch(text, LreclPattern)
    case None => None
    case Some(m) => Some(ParseDigits(MatchedValue(text, m)))
  }

  /** `toUpperCase()` on ASCII letters. */
  function ToUpper(s: string): (u: string)
    ensures |u| == |s|
    ensures forall i :: 0 <= i < |s| ==> u[i] == UpperAscii(s[i])
    // no small ASCII letter is left
    ensures forall i :: 0 <= i < |u| ==> !('a' <= u[i] <= 'z')
    // every character is kept, except a small letter, which becomes its capital
    ensures forall i :: 0 <= i < |s| ==>
      u[i] == s[i] || ('a' <= s[i] <= 'z' && u[i] as int + 32 == s[i] as int)
  {
    seq(|s|, i requires 0 <= i < |s| => UpperAscii(s[i]))
  }

  /** Upper-casing an upper-cased text changes nothing. */
  lemma ToUpperIdempotent(s: string)
    ensures ToUpper(ToUpper(s)) == ToUpper(s)
  {
  }

  /** The letters captured by `/RECFM\s*=\s*([A-Z]+)/i`, in capitals. */
  function DetectRecfm(text: string): (r: Option<string>)
    ensures r.None? <==> forall m :: !IsMatch(text, RecfmPattern, m)
    ensures r.Some? ==> |r.value| >= 1 && forall i :: 0 <= i < |r.value| ==> 'A' <= r.value[i] <= 'Z'
    ensures r.Some? ==> exists m :: (IsRegexMatch(text, RecfmPattern, m)
      && r.value == ToUpper(MatchedValue(text, m)))
  {
    match FirstMatch(text, RecfmPattern)
    case None => None
    case Some(m) => Some(ToUpper(MatchedValue(text, m)))
  }

  /**
   * `text.replace(/(BLKSIZE\s*=\s*)(\d*)/i, "$1" + n)`. The replacement
   * template `$1` followed by the numeral reads as group 1 and then the
   * digits: a two-digit reference `$1d` names group 10 to 19, beyond the
   * two groups, and so falls back to `$1` plus a literal digit.
   */
  function ReplaceBlksize(text: string, n: nat): (r: string)
    ensures FirstMatch(text, BlksizePattern).None? ==> r == text
    ensures forall m :: IsRegexMatch(text, BlksizePattern, m) ==>
      var d := NatToString(n);
      && |r| == |text| - (m.valueEnd - m.valueStart) + |d|
      && r[..m.valueStart] == text[..m.valueStart]
      && r[m.valueStart..m.valueStart + |d|] == d
      && r[m.valueStart + |d|..] == text[m.valueEnd..]
  {
    match FirstMatch(text, BlksizePattern)
    case None => text
    case Some(m) =>
      var d := NatToString(n);
      var r := text[..m.valueStart] + d + text[m.valueEnd..];
      forall m' | IsRegexMatch(text, BlksizePattern, m')
        ensures m' == m
      {
        RegexMatchUnique(text, BlksizePattern, m, m');
      }
      assert r[m.valueStart..m.valueStart + |d|] == d;
      assert r[m.valueStart + |d|..] == text[m.valueEnd..];
      r
  }

  /** The value written after the first `BLKSIZE=`, if it has digits. */
  function ReadBlksize(text: string): (r: Option<nat>)
  {
    match FirstMatch(text, BlksizePattern)
    case None => None
    case Some(m) => if m.valueStart == m.valueEnd then None else Some(ParseDigits(MatchedValue(text, m)))
  }

  /** Whether `m` matches depends only on the text up to its value's end. */
  lemma MatchDependsOnPrefix(s1: string, s2: string, p: Pattern, m: Match, bound: nat)
    requires IsMatch(s1, p, m) && m.valueEnd <= bound <= |s1| && bound <= |s2|
    requires s1[..bound] == s2[..bound]
    ensures IsMatch(s2, p, m)
  {
    assert forall k :: 0 <= k < bound ==> s1[k] == s1[..bound][k] == s2[..bound][k] == s2[k];
    assert KeyAt(s2, m.start, p.key) by {
      forall j | 0 <= j < |p.key|
        ensures UpperAscii(s2[m.start + j]) == p.key[j]
      {
        assert s1[m.start + j] == s2[m.start + j];
      }
    }
  }

  /**
   * A match in the rewritten text that starts before the new digits lies
   * wholly in the untouched prefix, so (with an empty value) it was a match
   * of the original text too.
   */
  lemma EarlierMatchSurvives(t: string, vs: nat, ve: nat, d: string, m: Match)
    requires vs <= ve <= |t| && |d| >= 1 && AllDigits(d)
    requires IsMatch(t[..vs] + d + t[ve..], BlksizePattern, m)
    ensures m.start < vs ==> IsMatch(t, BlksizePattern, Match(m.start, m.eqAt, m.valueStart, m.valueStart))
  {
    var r := t[..vs] + d + t[ve..];
    NoDigitBeforeValue(r, m);
    assert IsDigit(r[vs]) by {
      assert r[vs] == d[0];
    }
    if m.start < vs {
      assert m.valueStart <= vs;
      var e := Match(m.start, m.eqAt, m.valueStart, m.valueStart);
      assert IsMatch(r, BlksizePattern, e);
      assert r[..vs] == t[..vs];
      MatchDependsOnPrefix(r, t, BlksizePattern, e, vs);
    }
  }

  /** From `BLKSIZE` through the blanks after `=`, a match holds no digit. */
  lemma NoDigitBeforeValue(r: string, m: Match)
    requires IsMatch(r, BlksizePattern, m)
    ensures forall k :: m.start <= k < m.valueStart ==> !IsDigit(r[k])
  {
    var key := BlksizePattern.key;
    assert forall j :: 0 <= j < |key| ==> 'A' <= key[j] <= 'Z';
    forall k | m.start <= k < m.valueStart
      ensures !IsDigit(r[k])
    {
      if k < m.start + |key| {
        assert UpperAscii(r[m.start + (k - m.start)]) == key[k - m.start];
      }
    }
  }

  /** Putting digits in place of a greedy match's value run gives a greedy match again. */
  lemma RewrittenIsGreedy(t: string, m: Match, d: string)
    requires IsGreedyMatch(t, BlksizePattern, m)
    requires |d| >= 1 && AllDigits(d)
    ensures IsGreedyMatch(t[..m.valueStart] + d + t[m.valueEnd..], BlksizePattern,
                          Match(m.start, m.eqAt, m.valueStart, m.valueStart + |d|))
  {
    var p := BlksizePattern;
    var r := t[..m.valueStart] + d + t[m.valueEnd..];
    var e := Match(m.start, m.eqAt, m.valueStart, m.valueStart);
    var ms := Match(m.start, m.eqAt, m.valueStart, m.valueStart + |d|);
    assert IsMatch(t, p, e);
    assert r[..m.valueStart] == t[..m.valueStart];
    MatchDependsOnPrefix(t, r, p, e, m.valueStart);
    assert forall k :: 0 <= k < |d| ==> r[m.valueStart + k] == d[k];
    assert AllIn(r, ms.valueStart, ms.valueEnd, p.value) by {
      forall k | ms.valueStart <= k < ms.valueEnd
        ensures IsDigit(r[k])
      {
        assert r[m.valueStart + (k - m.valueStart)] == d[k - m.valueStart];
      }
    }
    assert m.valueEnd < |t| ==> r[m.valueStart + |d|] == t[m.valueEnd];
    assert r[m.valueStart] == d[0];
  }

  /** The same match with a value run of `len` characters. */
  function WithValueLength(m: Match, len: nat): Match {
    Match(m.start, m.eqAt, m.valueStart, m.valueStart + len)
  }

  /** After a rewrite the first match sits where it was, with the new numeral as its value. */
  lemma ReplacedMatch(t: string, n: nat)
    requires FirstMatch(t, BlksizePattern).Some?
    ensures FirstMatch(ReplaceBlksize(t, n), BlksizePattern)
        == Some(WithValueLength(FirstMatch(t, BlksizePattern).value, |NatToString(n)|))
  {
    var p := BlksizePattern;
    var m := FirstMatch(t, p).value;
    var d := NatToString(n);
    var r := ReplaceBlksize(t, n);
    assert r == t[..m.valueStart] + d + t[m.valueEnd..];
    var ms := WithValueLength(m, |d|);
    var f := FirstMatch(r, p);
    assert IsGreedyMatch(r, p, ms) by {
      RewrittenIsGreedy(t, m, d);
    }
    assert f.Some?;
    assert f.value.start == m.start by {
      EarlierMatchSurvives(t, m.valueStart, m.valueEnd, d, f.value);
    }
    assert f.value == ms by {
      GreedyUnique(r, p, f.value, ms);
    }
    assert f == Some(ms);
  }

  /** Reading the block size back after writing it gives the value written. */
  lemma ReplaceThenRead(text: string, n: nat)
    requires FirstMatch(text, BlksizePattern).Some?
    ensures ReadBlksize(ReplaceBlksize(text, n)) == Some(n)
  {
    var m := FirstMatch(text, BlksizePattern).value;
    var d := NatToString(n);
    var r := ReplaceBlksize(text, n);
    ReplacedMatch(text, n);
    assert r == text[..m.valueStart] + d + text[m.valueEnd..];
    assert r[m.valueStart..m.valueStart + |d|] == d;
    ParseNatToString(n);
  }

  /** Rewriting twice leaves what the second rewrite alone would have left. */
  lemma ReplaceLastWins(text: string, n1: nat, n2: nat)
    ensures ReplaceBlksize(ReplaceBlksize(text, n1), n2) == ReplaceBlksize(text, n2)
  {
    if FirstMatch(text, BlksizePattern).Some? {
      var m := FirstMatch(text, BlksizePattern).value;
      var d1, d2 := NatToString(n1), NatToString(n2);
      var r1 := ReplaceBlksize(text, n1);
      ReplacedMatch(text, n1);
      assert r1 == text[..m.valueStart] + d1 + text[m.valueEnd..];
      assert r1[..m.valueStart] == text[..m.valueStart];
      assert r1[m.valueStart + |d1|..] == text[m.valueEnd..];
    }
  }

  /** Rewriting with the value already written changes nothing. */
  lemma ReplaceIdempotent(text: string, n: nat)
    ensures ReplaceBlksize(ReplaceBlksize(text, n), n) == ReplaceBlksize(text, n)
  {
    ReplaceLastWins(text, n, n);
  }
}
