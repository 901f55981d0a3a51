/** collect_ips-o.py: the check `re.match(r'\b(?:[0-9]{1,3}\.){3}[0-9]{1,3}\b', text)`,
    which accepts a text that starts with four dot-separated groups of one to three
    digits ending at a word boundary. It checks the shape only: "999.999.1.1" passes,
    and so does "1.2.3.4:443", whose address is followed by a port. */
module Ipv4Pattern {
  import opened Wrappers
  import opened Text

  // ----- what the pattern means -----

  /** `[0-9]{1,3}` spans `s[i..j]`. */
  predicate Octet(s: string, i: nat, j: nat)
  {
    i < j <= i + 3 && j <= |s| && forall m :: i <= m < j ==> IsDigit(s[m])
  }

  /** The pattern matches at the start of `s` with its dots at `a`, `b`, `c` and
      its last group ending at `k`, where a word boundary follows. (The leading
      `\b` holds at the start of any text beginning with a digit.) */
  predicate DottedQuadAt(s: string, a: nat, b: nat, c: nat, k: nat)
  {
    Octet(s, 0, a) && a < |s| && s[a] == '.' &&
    Octet(s, a + 1, b) && b < |s| && s[b] == '.' &&
    Octet(s, b + 1, c) && c < |s| && s[c] == '.' &&
    Octet(s, c + 1, k) && (k == |s| || !IsWordChar(s[k]))
  }

  /** `re.match` succeeds: some placement of the groups matches. */
  ghost predicate Ipv4Prefix(s: string)
  {
    exists a: nat, b: nat, c: nat, k: nat :: DottedQuadAt(s, a, b, c, k)
  }

  // ----- the check as a scan -----

  /** The end of the one-to-three-digit group at `i`, which must be the whole
      digit run there (a dot or a word boundary has to follow it). */
  function GroupEnd(s: string, i: nat): (r: Option<nat>)
    requires i <= |s|
    ensures r.Some? ==> i < r.value <= i + 3 && r.value <= |s|
  {
    var j := DigitRunEnd(s, i);
    if i < j <= i + 3 then Some(j) else None
  }

  /** A dot at `i` followed by a group: the end of that group. */
  function DotGroupEnd(s: string, i: nat): (r: Option<nat>)
    requires i <= |s|
    ensures r.Some? ==> i < r.value <= |s|
  {
    if i < |s| && s[i] == '.' then GroupEnd(s, i + 1) else None
  }

  /** `n` more dot-and-group repetitions from `i`, then a word boundary. */
  function DotGroupsFrom(s: string, i: nat, n: nat): bool
    requires i <= |s|
    decreases n
  {
    if n == 0 then i == |s| || !IsWordChar(s[i])
    else
      match DotGroupEnd(s, i)
      case None => false
      case Some(j) => DotGroupsFrom(s, j, n - 1)
  }

  /** The check, scanning group by group: a group, then three dot-and-group
      repetitions, then a word boundary. */
  function MatchesIpv4(s: string): bool
  {
    match GroupEnd(s, 0)
    case None => false
    case Some(a) => DotGroupsFrom(s, a, 3)
  }

  // ----- the scan agrees with the meaning -----

  /** A group that the pattern places at `s[i..j]` is the one `GroupEnd` finds. */
  lemma GroupEndAt(s: string, i: nat, j: nat)
    requires Octet(s, i, j)
    requires j == |s| || !IsDigit(s[j])
    ensures GroupEnd(s, i) == Some(j)
  {
    DigitRunEndAt(s, i, j);
  }

  /** `GroupEnd` finds a group exactly when the whole digit run at `i` is one to
      three digits long, and then it ends where that run ends. */
  lemma GroupEndMeaning(s: string, i: nat)
    requires i <= |s|
    ensures GroupEnd(s, i).Some? ==>
      var j := GroupEnd(s, i).value;
      Octet(s, i, j) && (j == |s| || !IsDigit(s[j]))
    ensures GroupEnd(s, i).None? ==>
      forall j: nat :: Octet(s, i, j) ==> j < |s| && IsDigit(s[j])
  {
    DigitRun(s, i);
    if GroupEnd(s, i).None? {
      forall j: nat | Octet(s, i, j)
        ensures j < |s| && IsDigit(s[j])
      {
        if j == |s| || !IsDigit(s[j]) {
          GroupEndAt(s, i, j);
        }
      }
    }
  }

  /** Whatever the scan accepts, the pattern matches. */
  lemma MatchesIpv4Sound(s: string)
    requires MatchesIpv4(s)
    ensures Ipv4Prefix(s)
  {
    var a := GroupEnd(s, 0).value;
    DigitRun(s, 0);
    assert DotGroupsFrom(s, a, 3);
    var b := DotGroupEnd(s, a).value;
    DigitRun(s, a + 1);
    assert DotGroupsFrom(s, b, 2);
    var c := DotGroupEnd(s, b).value;
    DigitRun(s, b + 1);
    assert DotGroupsFrom(s, c, 1);
    var k := DotGroupEnd(s, c).value;
    DigitRun(s, c + 1);
    assert DotGroupsFrom(s, k, 0);
    assert DottedQuadAt(s, a, b, c, k);
  }

  /** Whatever the pattern matches, the scan accepts. */
  lemma MatchesIpv4Complete(s: string, a: nat, b: nat, c: nat, k: nat)
    requires DottedQuadAt(s, a, b, c, k)
    ensures MatchesIpv4(s)
  {
    GroupEndAt(s, 0, a);
    GroupEndAt(s, a + 1, b);
    GroupEndAt(s, b + 1, c);
    GroupEndAt(s, c + 1, k);
    assert DotGroupsFrom(s, k, 0);
    assert DotGroupsFrom(s, c, 1);
    assert DotGroupsFrom(s, b, 2);
    assert DotGroupsFrom(s, a, 3);
  }

  /** The scan and the pattern agree on every text. */
  lemma MatchesIpv4Meaning(s: string)
    ensures MatchesIpv4(s) <==> Ipv4Prefix(s)
  {
    if MatchesIpv4(s) {
      MatchesIpv4Sound(s);
    }
    if Ipv4Prefix(s) {
      var a: nat, b: nat, c: nat, k: nat :| DottedQuadAt(s, a, b, c, k);
      MatchesIpv4Complete(s, a, b, c, k);
    }
  }

  // ----- texts the address column can hold -----

  /** Groups are not range-checked: "999.999.1.1" passes. */
  lemma AcceptsOutOfRange()
    ensures MatchesIpv4("999.999.1.1")
  {
    var s := "999.999.1.1";
    assert DottedQuadAt(s, 3, 7, 9, 11);
    MatchesIpv4Complete(s, 3, 7, 9, 11);
  }

  /** Text after the address is not looked at once a boundary follows: "1.2.3.4:443" passes. */
  lemma AcceptsTrailingPort()
    ensures MatchesIpv4("1.2.3.4:443")
  {
    var s := "1.2.3.4:443";
    assert DottedQuadAt(s, 1, 3, 5, 7);
    MatchesIpv4Complete(s, 1, 3, 5, 7);
  }

  /** A fourth group of four digits fails: no boundary follows three of them. */
  lemma RejectsLongGroup()
    ensures !MatchesIpv4("1.2.3.4567")
  {
    var s := "1.2.3.4567";
    DigitRunEndAt(s, 0, 1);
    DigitRunEndAt(s, 2, 3);
    DigitRunEndAt(s, 4, 5);
    DigitRunEndAt(s, 6, 10);
    assert !DotGroupsFrom(s, 5, 1);
    assert !DotGroupsFrom(s, 3, 2);
    assert !DotGroupsFrom(s, 1, 3);
  }

  /** An IPv6 address in brackets fails at its first character. */
  lemma RejectsBracketedIpv6()
    ensures !MatchesIpv4("[2606:4700::1]")
  {
    DigitRunEndAt("[2606:4700::1]", 0, 0);
  }
}
