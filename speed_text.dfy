/** collect_ips.py: reading a download speed out of a cell text with
    `re.search(r'(\d+\.?\d*)\s*mb/s', text, re.IGNORECASE)` and `float` of the
    captured group, falling back to 0.0 when nothing matches. */
module SpeedText {
  import opened Wrappers
  import opened Text

  /** The four characters at `j` spell "mb/s" under IGNORECASE, where `s` also
      matches U+017F LATIN SMALL LETTER LONG S, which case-folds to it. */
  predicate UnitAt(s: string, j: nat)
  {
    j + 4 <= |s| && (s[j] == 'm' || s[j] == 'M') && (s[j + 1] == 'b' || s[j + 1] == 'B') &&
    s[j + 2] == '/' && (s[j + 3] == 's' || s[j + 3] == 'S' || s[j + 3] == '\U{017F}')
  }

  /** Where the captured group ends when it starts at digit `i`: the digit run,
      then, after a dot, the following digit run. */
  function NumberEnd(s: string, i: nat): (k: nat)
    requires i < |s| && IsDigit(s[i])
    ensures i < k <= |s|
  {
    var e := DigitRunEnd(s, i);
    if e < |s| && s[e] == '.' then DigitRunEnd(s, e + 1) else e
  }

  /** The regex tried at position `i`: the end of the group when it matches there. */
  function MatchAt(s: string, i: nat): (r: Option<nat>)
    ensures r.Some? ==> i < r.value <= |s|
  {
    if i < |s| && IsDigit(s[i]) then
      var k := NumberEnd(s, i);
      if UnitAt(s, SpaceRunEnd(s, k)) then Some(k) else None
    else None
  }

  /** The captured group `s[start..end]`. */
  datatype Span = Span(start: nat, end: nat)

  /** `re.search` from position `from`: the first position where the regex matches. */
  function Search(s: string, from: nat): (r: Option<Span>)
    requires from <= |s|
    ensures r.Some? ==> from <= r.value.start < r.value.end <= |s|
    decreases |s| - from
  {
    if from == |s| then None
    else
      match MatchAt(s, from)
      case Some(k) => Some(Span(from, k))
      case None => Search(s, from + 1)
  }

  // ----- what the regex means, stated without scanning -----

  /** Text `\d+\.?\d*` matches as a whole: digits, or digits, a dot and maybe more digits. */
  predicate NumberToken(t: string)
  {
    (|t| >= 1 && AllDigits(t)) ||
    (exists d :: 1 <= d < |t| && AllDigits(t[..d]) && t[d] == '.' && AllDigits(t[d + 1..]))
  }

  /** Text that starts with `\s*mb/s`, ignoring case. */
  predicate UnitSuffix(u: string)
  {
    exists w :: 0 <= w <= |u| && AllSpace(u[..w]) && UnitAt(u, w)
  }

  /** The regex matches with its group spanning `s[i..k]`. */
  predicate SpeedMatch(s: string, i: nat, k: nat)
  {
    i <= k <= |s| && NumberToken(s[i..k]) && UnitSuffix(s[k..])
  }

  // ----- the value of the group -----

  function DigitValue(c: char): nat
  {
    if IsDigit(c) then c as int - '0' as int else 0
  }

  /** The decimal value of a digit string. */
  function DigitsValue(d: string): nat
  {
    if d == [] then 0 else 10 * DigitsValue(d[..|d| - 1]) + DigitValue(d[|d| - 1])
  }

  function Pow10(n: nat): (p: nat)
    ensures p >= 1
  {
    if n == 0 then 1 else 10 * Pow10(n - 1)
  }

  /** The number with whole part `whole` and `places` digits `frac` after the dot. */
  function Decimal(whole: nat, frac: nat, places: nat): (v: real)
    ensures v >= whole as real
  {
    whole as real + frac as real / Pow10(places) as real
  }

  /** `float` of a number token: the whole part plus the digits after the dot
      over the matching power of ten ("5." reads as 5). */
  function NumberValue(t: string): (v: real)
    ensures v >= 0.0
  {
    var e := DigitRunEnd(t, 0);
    if e < |t| then Decimal(DigitsValue(t[..e]), DigitsValue(t[e + 1..]), |t| - e - 1)
    else DigitsValue(t) as real
  }

  /** The speed a cell text carries, or 0.0 when the regex finds nothing. */
  function ParseSpeed(text: string): (v: real)
    ensures v >= 0.0
  {
    match Search(text, 0)
    case None => 0.0
    case Some(m) => NumberValue(text[m.start..m.end])
  }

  // ----- the scanner agrees with the meaning -----

  /** Whatever `MatchAt` reports is a match of the regex. */
  lemma MatchAtSound(s: string, i: nat)
    requires MatchAt(s, i).Some?
    ensures SpeedMatch(s, i, MatchAt(s, i).value)
  {
    var k := MatchAt(s, i).value;
    var e := DigitRunEnd(s, i);
    DigitRun(s, i);
    if e < |s| && s[e] == '.' {
      DigitRun(s, e + 1);
      DottedFromParts(s, i, e, k);
    } else {
      DigitsFromParts(s, i, k);
    }
    SpaceRun(s, k);
    SuffixFromParts(s, k, SpaceRunEnd(s, k));
  }

  /** Digits at `[i, k)` form a number token. */
  lemma DigitsFromParts(s: string, i: nat, k: nat)
    requires i < k <= |s| && forall m :: i <= m < k ==> IsDigit(s[m])
    ensures NumberToken(s[i..k])
  {
    var t := s[i..k];
    assert forall m :: 0 <= m < |t| ==> t[m] == s[i + m];
  }

  /** Digits at `[i, e)`, a dot at `e` and digits at `(e, k)` form a number token. */
  lemma DottedFromParts(s: string, i: nat, e: nat, k: nat)
    requires i < e < k <= |s| && s[e] == '.'
    requires forall m :: i <= m < e ==> IsDigit(s[m])
    requires forall m :: e < m < k ==> IsDigit(s[m])
    ensures NumberToken(s[i..k])
  {
    var t := s[i..k];
    var d := e - i;
    assert t[..d] == s[i..e];
    assert t[d + 1..] == s[e + 1..k];
    assert AllDigits(t[..d]) && t[d] == '.' && AllDigits(t[d + 1..]);
  }

  /** Whitespace at `[k, j)` followed by the unit forms a unit suffix. */
  lemma SuffixFromParts(s: string, k: nat, j: nat)
    requires k <= j && UnitAt(s, j)
    requires forall m :: k <= m < j ==> IsSpace(s[m])
    ensures UnitSuffix(s[k..])
  {
    var u := s[k..];
    assert u[..j - k] == s[k..j];
    assert AllSpace(u[..j - k]) && UnitAt(u, j - k);
  }

  /** A match's unit part starts after the longest whitespace run, which is
      why the group cannot be followed by a digit or a dot. */
  lemma UnitSuffixAt(s: string, k: nat)
    requires k <= |s| && UnitSuffix(s[k..])
    ensures k < |s| && !IsDigit(s[k]) && s[k] != '.'
    ensures UnitAt(s, SpaceRunEnd(s, k))
  {
    var w := UnitSuffixParts(s, k);
    UnitAfterSpaces(s, k, w);
  }

  /** The unit after `w` whitespace characters: the whitespace run ends at it. */
  lemma UnitAfterSpaces(s: string, k: nat, w: nat)
    requires UnitAt(s, k + w)
    requires forall m :: k <= m < k + w ==> IsSpace(s[m])
    ensures k < |s| && !IsDigit(s[k]) && s[k] != '.'
    ensures SpaceRunEnd(s, k) == k + w
  {
    assert !IsSpace(s[k + w]);
    SpaceRunEndAt(s, k, k + w);
    if w > 0 {
      assert IsSpace(s[k]);
    } else {
      assert s[k] == 'm' || s[k] == 'M';
    }
  }

  /** The whitespace and the unit of a unit suffix, located in the whole text. */
  lemma UnitSuffixParts(s: string, k: nat) returns (w: nat)
    requires k <= |s| && UnitSuffix(s[k..])
    ensures UnitAt(s, k + w)
    ensures forall m :: k <= m < k + w ==> IsSpace(s[m])
  {
    var u := s[k..];
    w :| 0 <= w <= |u| && AllSpace(u[..w]) && UnitAt(u, w);
    forall m | k <= m < k + w
      ensures IsSpace(s[m])
    {
      assert u[..w][m - k] == s[m];
    }
    assert s[k + w] == u[w] && s[k + w + 1] == u[w + 1] && s[k + w + 2] == u[w + 2] && s[k + w + 3] == u[w + 3];
  }

  /** The digits of a slice are digits of the text. */
  lemma SliceDigits(s: string, i: nat, j: nat)
    requires i <= j <= |s| && AllDigits(s[i..j])
    ensures forall m :: i <= m < j ==> IsDigit(s[m])
  {
    forall m | i <= m < j
      ensures IsDigit(s[m])
    {
      assert s[i..j][m - i] == s[m];
    }
  }

  /** A number token with a dot, located in the text: digits, the dot at `i + d`, digits. */
  lemma DottedToken(s: string, i: nat, k: nat) returns (d: nat)
    requires i <= k <= |s| && NumberToken(s[i..k])
    requires !(k > i && AllDigits(s[i..k]))
    ensures 1 <= d && i + d < k && s[i + d] == '.'
    ensures forall m :: i <= m < i + d ==> IsDigit(s[m])
    ensures forall m :: i + d < m < k ==> IsDigit(s[m])
  {
    var t := s[i..k];
    d :| 1 <= d < |t| && AllDigits(t[..d]) && t[d] == '.' && AllDigits(t[d + 1..]);
    forall m | i <= m < i + d
      ensures IsDigit(s[m])
    {
      assert t[..d][m - i] == s[m];
    }
    forall m | i + d < m < k
      ensures IsDigit(s[m])
    {
      assert t[d + 1..][m - i - d - 1] == s[m];
    }
  }

  /** A number token followed by neither a digit nor a dot ends where `NumberEnd` says. */
  lemma NumberEndAt(s: string, i: nat, k: nat)
    requires i <= k < |s| && NumberToken(s[i..k])
    requires !IsDigit(s[k]) && s[k] != '.'
    ensures IsDigit(s[i]) && NumberEnd(s, i) == k
  {
    if k > i && AllDigits(s[i..k]) {
      SliceDigits(s, i, k);
      DigitRunEndAt(s, i, k);
    } else {
      var d := DottedToken(s, i, k);
      DigitRunEndAt(s, i, i + d);
      DigitRunEndAt(s, i + d + 1, k);
    }
  }

  /** Every match of the regex at `i` is the one `MatchAt` reports. */
  lemma MatchAtComplete(s: string, i: nat, k: nat)
    requires SpeedMatch(s, i, k)
    ensures MatchAt(s, i) == Some(k)
  {
    UnitSuffixAt(s, k);
    NumberEndAt(s, i, k);
  }

  /** Nothing matches at `i` when `MatchAt` reports nothing there. */
  lemma MatchAtNone(s: string, i: nat, k: nat)
    requires MatchAt(s, i).None?
    ensures !SpeedMatch(s, i, k)
  {
    if SpeedMatch(s, i, k) {
      MatchAtComplete(s, i, k);
    }
  }

  /** `Search` finds the leftmost position where the regex matches, and
      nothing when it matches nowhere. */
  lemma SearchLeftmost(s: string, from: nat)
    requires from <= |s|
    ensures Search(s, from).Some? ==>
      var m := Search(s, from).value;
      from <= m.start && MatchAt(s, m.start) == Some(m.end) && SpeedMatch(s, m.start, m.end) &&
      forall i: nat, k: nat :: from <= i < m.start ==> !SpeedMatch(s, i, k)
    ensures Search(s, from).None? ==> forall i: nat, k: nat :: from <= i ==> !SpeedMatch(s, i, k)
  {
    if Search(s, from).Some? {
      SearchFound(s, from);
    } else {
      SearchNone(s, from);
    }
  }

  /** No match is skipped on the way to the position `Search` reports. */
  lemma {:induction false} SearchFound(s: string, from: nat)
    requires from <= |s| && Search(s, from).Some?
    ensures var m := Search(s, from).value;
      from <= m.start && MatchAt(s, m.start) == Some(m.end) && SpeedMatch(s, m.start, m.end) &&
      forall i: nat, k: nat :: from <= i < m.start ==> !SpeedMatch(s, i, k)
    decreases |s| - from
  {
    if MatchAt(s, from).Some? {
      MatchAtSound(s, from);
    } else {
      assert Search(s, from) == Search(s, from + 1);
      SearchFound(s, from + 1);
      NoMatchAt(s, from);
    }
  }

  /** When `Search` reports nothing, the regex matches nowhere from `from` on. */
  lemma {:induction false} SearchNone(s: string, from: nat)
    requires from <= |s| && Search(s, from).None?
    ensures forall i: nat, k: nat :: from <= i ==> !SpeedMatch(s, i, k)
    decreases |s| - from
  {
    if from < |s| {
      SearchNone(s, from + 1);
      NoMatchAt(s, from);
    }
  }

  /** No match at all starts at a position where `MatchAt` reports nothing. */
  lemma NoMatchAt(s: string, i: nat)
    requires MatchAt(s, i).None?
    ensures forall k: nat :: !SpeedMatch(s, i, k)
  {
    forall k: nat
      ensures !SpeedMatch(s, i, k)
    {
      MatchAtNone(s, i, k);
    }
  }

  /** With no match anywhere, the speed is 0.0. */
  lemma ParseSpeedNoMatch(text: string)
    requires forall i: nat, k: nat :: !SpeedMatch(text, i, k)
    ensures ParseSpeed(text) == 0.0
  {
    SearchLeftmost(text, 0);
  }

  /** Otherwise the speed is the value of the group of the leftmost match. */
  lemma ParseSpeedLeftmost(text: string, i: nat, k: nat)
    requires SpeedMatch(text, i, k)
    requires forall i': nat, k': nat :: i' < i ==> !SpeedMatch(text, i', k')
    ensures ParseSpeed(text) == NumberValue(text[i..k])
  {
    SearchLeftmost(text, 0);
    MatchAtComplete(text, i, k);
    assert Search(text, 0).value.start == i;
  }

  // ----- cell texts as the speed column shows them -----

  /** A number token, optional whitespace and the unit in any case read as the
      value of the token. */
  lemma SpeedOfToken(t: string, w: string, unit: string)
    requires NumberToken(t) && AllSpace(w) && |unit| == 4 && UnitAt(unit, 0)
    ensures ParseSpeed(t + w + unit) == NumberValue(t)
  {
    var s := t + w + unit;
    var u := s[|t|..];
    assert s[0..|t|] == t && u == w + unit;
    assert u[..|w|] == w;
    assert UnitAt(u, |w|);
    assert SpeedMatch(s, 0, |t|);
    ParseSpeedLeftmost(s, 0, |t|);
  }

  /** Digits, optional whitespace and the unit read as the whole number. */
  lemma SpeedOfWholeNumber(d: string, w: string, unit: string)
    requires |d| >= 1 && AllDigits(d) && AllSpace(w) && |unit| == 4 && UnitAt(unit, 0)
    ensures ParseSpeed(d + w + unit) == DigitsValue(d) as real
  {
    SpeedOfToken(d, w, unit);
    DigitRunEndAt(d, 0, |d|);
  }

  /** Digits, a dot and more digits form a number token worth what they spell. */
  lemma DecimalToken(a: string, b: string)
    requires |a| >= 1 && AllDigits(a) && AllDigits(b)
    ensures NumberToken(a + "." + b)
    ensures NumberValue(a + "." + b) == Decimal(DigitsValue(a), DigitsValue(b), |b|)
  {
    var t := a + "." + b;
    assert t[..|a|] == a && t[|a|] == '.' && t[|a| + 1..] == b;
    DigitRunEndAt(t, 0, |a|);
  }

  /** Digits, a dot, more digits, optional whitespace and the unit read as the
      decimal number they spell. */
  lemma SpeedOfDecimal(a: string, b: string, w: string, unit: string)
    requires |a| >= 1 && AllDigits(a) && AllDigits(b) && AllSpace(w) && |unit| == 4 && UnitAt(unit, 0)
    ensures ParseSpeed(a + "." + b + w + unit) == Decimal(DigitsValue(a), DigitsValue(b), |b|)
  {
    DecimalToken(a, b);
    SpeedOfToken(a + "." + b, w, unit);
  }

  /** A text without "mb/s" after a number reads as 0.0. */
  lemma SpeedMissingUnit()
    ensures ParseSpeed("6.92") == 0.0
  {
    forall i: nat, k: nat
      ensures !SpeedMatch("6.92", i, k)
    {
      if SpeedMatch("6.92", i, k) {
        UnitSuffixAt("6.92", k);
      }
    }
    ParseSpeedNoMatch("6.92");
  }
}
