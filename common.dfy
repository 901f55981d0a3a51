/** Shared vocabulary of the four scrapers: optional values, ASCII text helpers,
    and the already-located HTML table they all read. */

module Wrappers {
  datatype Option<+T> = None | Some(value: T)

  function Min(a: nat, b: nat): nat { if a <= b then a else b }
}

/** Keeping, in order, the values a partial map gives for the items of a sequence:
    the shape of every row loop that appends to a list when a row qualifies. */
module Filtering {
  import opened Wrappers

  /** The values `f` gives for the items of `xs` that have one, in order. */
  function Kept<T, U>(f: T -> Option<U>, xs: seq<T>): seq<U>
  {
    if xs == [] then []
    else Kept(f, xs[..|xs| - 1]) + (match f(xs[|xs| - 1]) case Some(v) => [v] case None => [])
  }

  /** How many items of `xs` satisfy `p`. */
  function Count<T>(p: T -> bool, xs: seq<T>): nat
  {
    if xs == [] then 0 else Count(p, xs[..|xs| - 1]) + (if p(xs[|xs| - 1]) then 1 else 0)
  }

  /** Keeping from two sequences in turn keeps from each in turn. */
  lemma {:induction false} KeptAppend<T, U>(f: T -> Option<U>, a: seq<T>, b: seq<T>)
    ensures Kept(f, a + b) == Kept(f, a) + Kept(f, b)
    decreases |b|
  {
    if b == [] {
      assert a + b == a;
    } else {
      var b' := b[..|b| - 1];
      KeptAppend(f, a, b');
      assert (a + b)[..|a + b| - 1] == a + b';
      assert (a + b)[|a + b| - 1] == b[|b| - 1];
    }
  }

  /** One more item extends the kept values by that item's value, if it has one. */
  lemma KeptStep<T, U>(f: T -> Option<U>, xs: seq<T>, i: nat)
    requires i < |xs|
    ensures Kept(f, xs[..i + 1]) == Kept(f, xs[..i]) + match f(xs[i]) case Some(v) => [v] case None => []
  {
    assert xs[..i + 1][..i] == xs[..i];
  }

  /** A one-element sequence keeps its element exactly when `f` accepts it. */
  lemma KeptSingle<T, U>(f: T -> Option<U>, x: T)
    ensures Kept(f, [x]) == match f(x) case Some(v) => [v] case None => []
  {
    assert [x][..0] == [];
  }

  /** Exactly one value is kept per item that has one. */
  lemma {:induction false} KeptCount<T, U>(f: T -> Option<U>, p: T -> bool, xs: seq<T>)
    requires forall x :: p(x) == f(x).Some?
    ensures |Kept(f, xs)| == Count(p, xs) <= |xs|
    decreases |xs|
  {
    if xs != [] {
      KeptCount(f, p, xs[..|xs| - 1]);
    }
  }

  /** The value of item `j` is kept right after the values of the items before it. */
  lemma KeptAt<T, U>(f: T -> Option<U>, xs: seq<T>, j: nat)
    requires j < |xs| && f(xs[j]).Some?
    ensures |Kept(f, xs[..j])| < |Kept(f, xs)|
    ensures Kept(f, xs)[|Kept(f, xs[..j])|] == f(xs[j]).value
  {
    KeptAppend(f, xs[..j + 1], xs[j + 1..]);
    assert xs[..j + 1] + xs[j + 1..] == xs;
    assert xs[..j + 1][..j] == xs[..j];
  }

  /** Kept value `k` is the value of the item before which exactly `k` values are kept. */
  lemma {:induction false} KeptFrom<T, U>(f: T -> Option<U>, xs: seq<T>, k: nat) returns (j: nat)
    requires k < |Kept(f, xs)|
    ensures j < |xs| && f(xs[j]) == Some(Kept(f, xs)[k]) && |Kept(f, xs[..j])| == k
    decreases |xs|
  {
    var init := xs[..|xs| - 1];
    if k < |Kept(f, init)| {
      j := KeptFrom(f, init, k);
      assert init[..j] == xs[..j];
    } else {
      j := |xs| - 1;
    }
  }
}

/** Character classes and whitespace trimming, restricted to ASCII. */
module Text {

  /** ASCII whitespace as `str.isspace` sees it: what `str.strip()` removes and the
      regex class `\s` matches. Tab through carriage return, the four separators
      U+001C to U+001F, and the space. */
  predicate IsSpace(c: char) {
    c == ' ' || '\t' <= c <= '\r' || '\U{001C}' <= c <= '\U{001F}'
  }

  /** The regex class `\d` and `[0-9]`. */
  predicate IsDigit(c: char) { '0' <= c <= '9' }

  /** The regex class `\w`, whose edges `\b` detects. */
  predicate IsWordChar(c: char) {
    IsDigit(c) || 'a' <= c <= 'z' || 'A' <= c <= 'Z' || c == '_'
  }

  predicate AllSpace(s: string) { forall k :: 0 <= k < |s| ==> IsSpace(s[k]) }

  predicate AllDigits(s: string) { forall k :: 0 <= k < |s| ==> IsDigit(s[k]) }

  /** The end of the run of digits starting at `i`: the longest `[0-9]*` there. */
  function DigitRunEnd(s: string, i: nat): (e: nat)
    requires i <= |s|
    ensures i <= e <= |s|
    decreases |s| - i
  {
    if i < |s| && IsDigit(s[i]) then DigitRunEnd(s, i + 1) else i
  }

  /** The end of the run of whitespace starting at `i`: the longest `\s*` there. */
  function SpaceRunEnd(s: string, i: nat): (e: nat)
    requires i <= |s|
    ensures i <= e <= |s|
    decreases |s| - i
  {
    if i < |s| && IsSpace(s[i]) then SpaceRunEnd(s, i + 1) else i
  }

  /** The digit run is all digits and is followed by no digit. */
  lemma {:induction false} DigitRun(s: string, i: nat)
    requires i <= |s|
    ensures forall k :: i <= k < DigitRunEnd(s, i) ==> IsDigit(s[k])
    ensures DigitRunEnd(s, i) == |s| || !IsDigit(s[DigitRunEnd(s, i)])
    decreases |s| - i
  {
    if i < |s| && IsDigit(s[i]) {
      DigitRun(s, i + 1);
    }
  }

  /** The whitespace run is all whitespace and is followed by no whitespace. */
  lemma {:induction false} SpaceRun(s: string, i: nat)
    requires i <= |s|
    ensures forall k :: i <= k < SpaceRunEnd(s, i) ==> IsSpace(s[k])
    ensures SpaceRunEnd(s, i) == |s| || !IsSpace(s[SpaceRunEnd(s, i)])
    decreases |s| - i
  {
    if i < |s| && IsSpace(s[i]) {
      SpaceRun(s, i + 1);
    }
  }

  /** A digit run that stops at `k` ends at `k`. */
  lemma DigitRunEndAt(s: string, i: nat, k: nat)
    requires i <= k <= |s|
    requires forall m :: i <= m < k ==> IsDigit(s[m])
    requires k == |s| || !IsDigit(s[k])
    ensures DigitRunEnd(s, i) == k
  {
    DigitRun(s, i);
  }

  /** A whitespace run that stops at `k` ends at `k`. */
  lemma SpaceRunEndAt(s: string, i: nat, k: nat)
    requires i <= k <= |s|
    requires forall m :: i <= m < k ==> IsSpace(s[m])
    requires k == |s| || !IsSpace(s[k])
    ensures SpaceRunEnd(s, i) == k
  {
    SpaceRun(s, i);
  }

  /** `str.strip()`: the text with its leading and trailing whitespace removed. */
  function Trim(s: string): string
  {
    if |s| > 0 && IsSpace(s[0]) then Trim(s[1..])
    else if |s| > 0 && IsSpace(s[|s| - 1]) then Trim(s[..|s| - 1])
    else s
  }

  /** The number of whitespace characters at the front of `s`. */
  function Leading(s: string): (n: nat)
    ensures n <= |s|
  {
    if |s| > 0 && IsSpace(s[0]) then 1 + Leading(s[1..]) else 0
  }

  /** The trimmed text has whitespace at neither end. */
  lemma {:induction false} TrimEdges(s: string)
    ensures var r := Trim(s); r == [] || (!IsSpace(r[0]) && !IsSpace(r[|r| - 1]))
  {
    if |s| > 0 && IsSpace(s[0]) {
      TrimEdges(s[1..]);
    } else if |s| > 0 && IsSpace(s[|s| - 1]) {
      TrimEdges(s[..|s| - 1]);
    }
  }

  /** `s` is `n` whitespace characters, then `r`, then whitespace. */
  predicate Padded(s: string, n: nat, r: string)
  {
    n + |r| <= |s| && r == s[n..n + |r|] && AllSpace(s[..n]) && AllSpace(s[n + |r|..])
  }

  /** What `Trim` removes is whitespace only: the input is its leading
      whitespace, the result, and some trailing whitespace. */
  lemma {:induction false} TrimSlice(s: string)
    ensures Leading(s) + |Trim(s)| <= |s|
    ensures Trim(s) == s[Leading(s)..Leading(s) + |Trim(s)|]
    ensures AllSpace(s[..Leading(s)]) && AllSpace(s[Leading(s) + |Trim(s)|..])
  {
    if |s| > 0 && IsSpace(s[0]) {
      var t := s[1..];
      TrimSlice(t);
      PaddedFront(s, Leading(t), Trim(t));
    } else if |s| > 0 && IsSpace(s[|s| - 1]) {
      var t := s[..|s| - 1];
      TrimSlice(t);
      assert Leading(t) == 0 by {
        if |t| > 0 {
          assert t[0] == s[0];
        }
      }
      PaddedBack(s, Trim(t));
    } else {
      assert s[0..|s|] == s;
    }
  }

  /** One more whitespace character in front. */
  lemma PaddedFront(s: string, n: nat, r: string)
    requires |s| > 0 && IsSpace(s[0]) && Padded(s[1..], n, r)
    ensures Padded(s, n + 1, r)
  {
    var t := s[1..];
    assert s[n + 1..n + 1 + |r|] == t[n..n + |r|];
    assert s[n + 1 + |r|..] == t[n + |r|..];
    assert s[..n + 1] == [s[0]] + t[..n];
  }

  /** One more whitespace character at the back. */
  lemma PaddedBack(s: string, r: string)
    requires |s| > 0 && IsSpace(s[|s| - 1]) && Padded(s[..|s| - 1], 0, r)
    ensures Padded(s, 0, r)
  {
    var t := s[..|s| - 1];
    assert s[..|r|] == t[..|r|];
    assert s[|r|..] == t[|r|..] + [s[|s| - 1]];
  }

  /** Trimming what is already trimmed changes nothing. */
  lemma TrimIdempotent(s: string)
    ensures Trim(Trim(s)) == Trim(s)
  {
    TrimEdges(s);
    TrimUnchanged(Trim(s));
  }

  /** A text without whitespace at either end is its own trim. */
  lemma TrimUnchanged(s: string)
    requires s == [] || (!IsSpace(s[0]) && !IsSpace(s[|s| - 1]))
    ensures Trim(s) == s
  {
  }
}

/** The table the scrapers read, after BeautifulSoup has located it. */
module Html {
  import opened Wrappers

  datatype Tag = Th | Td

  /** The state of the first `<a>` inside a cell. */
  datatype Link = NoAnchor | AnchorWithoutHref | Href(target: string)

  datatype Cell = Cell(tag: Tag, text: string, link: Link)

  /** The `th` and `td` cells of one `<tr>`, in document order. */
  type Row = seq<Cell>

  /** Outcome of `soup.find('table', ...)` followed by `.find('tbody')`. */
  datatype TableLookup = TableMissing | TbodyMissing | Found(rows: seq<Row>)

  /** A browser session: either the readiness wait timed out or the page source was parsed. */
  datatype Rendering = WaitTimedOut | Rendered(table: TableLookup)

  /** A `requests.get`: either it raised, or a response with a status code was parsed. */
  datatype Fetch = RequestFailed | Fetched(status: int, table: TableLookup)

  /** `row.find_all('td')`: the data cells of a row, in order. */
  function Tds(row: Row): (cols: seq<Cell>)
    ensures |cols| <= |row|
    ensures forall k :: 0 <= k < |cols| ==> cols[k].tag == Td
  {
    if row == [] then []
    else (if row[0].tag == Td then [row[0]] else []) + Tds(row[1..])
  }

  /** The `td` cells of two cell lists in turn are those of each in turn. */
  lemma {:induction false} TdsAppend(a: Row, b: Row)
    ensures Tds(a + b) == Tds(a) + Tds(b)
  {
    if a == [] {
      assert a + b == b;
    } else {
      var head := if a[0].tag == Td then [a[0]] else [];
      TdsAppend(a[1..], b);
      assert (a + b)[1..] == a[1..] + b;
      assert Tds(a + b) == head + Tds(a[1..] + b);
      assert Tds(a) == head + Tds(a[1..]);
    }
  }

  /** Every cell of a row is kept in its place exactly when it is a `td`. */
  lemma TdsKeepsData(a: Row, c: Cell, b: Row)
    ensures Tds(a + [c] + b) == Tds(a) + (if c.tag == Td then [c] else []) + Tds(b)
  {
    TdsAppend(a + [c], b);
    TdsAppend(a, [c]);
    TdsSingle(c);
  }

  lemma TdsSingle(c: Cell)
    ensures Tds([c]) == if c.tag == Td then [c] else []
  {
    assert [c][1..] == [];
  }

  /** A row made only of data cells is its own `td` list. */
  lemma {:induction false} TdsAllData(row: Row)
    requires forall k :: 0 <= k < |row| ==> row[k].tag == Td
    ensures Tds(row) == row
  {
    if row != [] {
      TdsAllData(row[1..]);
    }
  }
}
