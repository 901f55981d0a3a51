/** collect_ips.py: `get_fastest_ips_from_html`, which pairs the address of every
    row having at least five `td` cells with the speed read from its fifth cell,
    sorts the pairs by speed, fastest first and stably, and keeps the first ten. */
module FastestIps {
  import opened Wrappers
  import opened Text
  import opened Html
  import opened Filtering
  import opened SpeedText

  /** How many pairs the function returns at most. */
  const Limit: nat := 10

  /** Rows with fewer `td` cells than this are skipped. */
  const MinColumns: nat := 5

  /** One `(ip_address, speed)` tuple. */
  datatype IpSpeed = IpSpeed(ip: string, speed: real)

  // ----- one row -----

  /** An IPv6 address shown as "[...]" loses its brackets; anything else is kept. */
  function StripBrackets(ip: string): (r: string)
    ensures r == ip || "[" + r + "]" == ip
  {
    if |ip| > 0 && ip[0] == '[' && ip[|ip| - 1] == ']' then ip[1..|ip| - 1] else ip
  }

  /** The pair a row yields, if it has at least five `td` cells. */
  function RowPair(row: Row): Option<IpSpeed>
  {
    var cols := Tds(row);
    if |cols| >= MinColumns then
      Some(IpSpeed(StripBrackets(Trim(cols[1].text)), ParseSpeed(Trim(cols[4].text))))
    else None
  }

  /** The pairs of all rows, in row order: `ip_speed_list` after the loop. */
  function IpSpeedsOf(rows: seq<Row>): seq<IpSpeed>
  {
    Kept(RowPair, rows)
  }

  /** A row with enough `td` cells to be read. */
  predicate Wide(row: Row)
  {
    |Tds(row)| >= MinColumns
  }

  /** A bracketed text loses exactly its brackets. */
  lemma StripBracketsUnwraps(x: string)
    ensures StripBrackets("[" + x + "]") == x
  {
    var ip := "[" + x + "]";
    assert ip[1..|ip| - 1] == x;
  }

  /** There is exactly one pair per row with at least five `td` cells, and pair `k`
      is the one of the wide row before which exactly `k` wide rows stand; no speed
      is negative. */
  lemma IpSpeedsFromRows(rows: seq<Row>)
    ensures |IpSpeedsOf(rows)| == Count(Wide, rows) <= |rows|
    ensures forall k :: 0 <= k < |IpSpeedsOf(rows)| ==>
      var p := IpSpeedsOf(rows)[k];
      p.speed >= 0.0 &&
      exists j :: 0 <= j < |rows| && Wide(rows[j]) && Count(Wide, rows[..j]) == k &&
        RowPair(rows[j]) == Some(p)
  {
    KeptCount(RowPair, Wide, rows);
    var ps := IpSpeedsOf(rows);
    forall k | 0 <= k < |ps|
      ensures ps[k].speed >= 0.0 &&
        exists j :: 0 <= j < |rows| && Wide(rows[j]) && Count(Wide, rows[..j]) == k &&
          RowPair(rows[j]) == Some(ps[k])
    {
      var j := KeptFrom(RowPair, rows, k);
      KeptCount(RowPair, Wide, rows[..j]);
    }
  }

  /** Every wide row gives its pair, right after the pairs of the wide rows
      before it. */
  lemma IpSpeedsComplete(rows: seq<Row>, j: nat)
    requires j < |rows| && Wide(rows[j])
    ensures Count(Wide, rows[..j]) < |IpSpeedsOf(rows)|
    ensures IpSpeedsOf(rows)[Count(Wide, rows[..j])] == RowPair(rows[j]).value
  {
    KeptCount(RowPair, Wide, rows[..j]);
    KeptAt(RowPair, rows, j);
  }

  /** The row loop. */
  method CollectIpSpeeds(rows: seq<Row>) returns (pairs: seq<IpSpeed>)
    ensures pairs == IpSpeedsOf(rows)
  {
    pairs := [];
    var i := 0;
    while i < |rows|
      invariant 0 <= i <= |rows|
      invariant pairs == IpSpeedsOf(rows[..i])
    {
      KeptStep(RowPair, rows, i);
      var cols := Tds(rows[i]);
      if |cols| >= MinColumns {
        var ip := Trim(cols[1].text);
        var speedText := Trim(cols[4].text);
        if |ip| > 0 && ip[0] == '[' && ip[|ip| - 1] == ']' {
          ip := ip[1..|ip| - 1];
        }
        var speed := ParseSpeed(speedText);
        pairs := pairs + [IpSpeed(ip, speed)];
      }
      i := i + 1;
    }
    assert rows[..i] == rows;
  }

  // ----- sorting, fastest first -----

  /** Speeds never rise along the sequence. */
  predicate FastestFirst(s: seq<IpSpeed>)
  {
    forall i, j :: 0 <= i < j < |s| ==> s[i].speed >= s[j].speed
  }

  /** The pairs with speed `v`, in their order. */
  function WithSpeed(s: seq<IpSpeed>, v: real): seq<IpSpeed>
  {
    if s == [] then [] else (if s[0].speed == v then [s[0]] else []) + WithSpeed(s[1..], v)
  }

  /** Places `x` before the first pair that is not faster than it. */
  function Insert(x: IpSpeed, r: seq<IpSpeed>): seq<IpSpeed>
  {
    if r == [] || x.speed >= r[0].speed then [x] + r else [r[0]] + Insert(x, r[1..])
  }

  /** `sorted(..., key=speed, reverse=True)`: by speed, fastest first, pairs of
      equal speed keeping their order. */
  function SortBySpeed(s: seq<IpSpeed>): seq<IpSpeed>
  {
    if s == [] then [] else Insert(s[0], SortBySpeed(s[1..]))
  }

  lemma {:induction false} InsertPermutes(x: IpSpeed, r: seq<IpSpeed>)
    ensures multiset(Insert(x, r)) == multiset([x] + r)
  {
    if r != [] && x.speed < r[0].speed {
      InsertPermutes(x, r[1..]);
      assert r == [r[0]] + r[1..];
    }
  }

  lemma {:induction false} InsertKeepsOrder(x: IpSpeed, r: seq<IpSpeed>)
    requires FastestFirst(r)
    ensures FastestFirst(Insert(x, r))
  {
    if r != [] && x.speed < r[0].speed {
      InsertKeepsOrder(x, r[1..]);
      InsertPermutes(x, r[1..]);
      var t := Insert(x, r[1..]);
      forall j | 0 <= j < |t|
        ensures r[0].speed >= t[j].speed
      {
        assert t[j] in multiset([x] + r[1..]);
      }
    }
  }

  lemma {:induction false} InsertWithSpeed(x: IpSpeed, r: seq<IpSpeed>, v: real)
    ensures WithSpeed(Insert(x, r), v) == WithSpeed([x], v) + WithSpeed(r, v)
  {
    assert [x][1..] == [];
    if r == [] || x.speed >= r[0].speed {
      assert ([x] + r)[1..] == r;
    } else {
      InsertWithSpeed(x, r[1..], v);
      assert ([r[0]] + Insert(x, r[1..]))[1..] == Insert(x, r[1..]);
    }
  }

  /** The sort puts the pairs fastest first. */
  lemma {:induction false} SortFastestFirst(s: seq<IpSpeed>)
    ensures FastestFirst(SortBySpeed(s))
  {
    if s != [] {
      SortFastestFirst(s[1..]);
      InsertKeepsOrder(s[0], SortBySpeed(s[1..]));
    }
  }

  /** The sort neither drops nor adds a pair. */
  lemma {:induction false} SortPermutes(s: seq<IpSpeed>)
    ensures multiset(SortBySpeed(s)) == multiset(s)
  {
    if s != [] {
      SortPermutes(s[1..]);
      InsertPermutes(s[0], SortBySpeed(s[1..]));
      assert s == [s[0]] + s[1..];
    }
  }

  /** The sort is stable: pairs of equal speed keep their relative order. */
  lemma {:induction false} SortStable(s: seq<IpSpeed>, v: real)
    ensures WithSpeed(SortBySpeed(s), v) == WithSpeed(s, v)
  {
    if s != [] {
      SortStable(s[1..], v);
      InsertWithSpeed(s[0], SortBySpeed(s[1..]), v);
      assert [s[0]][1..] == [];
      assert WithSpeed([s[0]], v) == (if s[0].speed == v then [s[0]] else []) + [];
    }
  }

  /** Pairs already fastest first are left as they are. */
  lemma {:induction false} SortOfSorted(s: seq<IpSpeed>)
    requires FastestFirst(s)
    ensures SortBySpeed(s) == s
  {
    if s != [] {
      SortOfSorted(s[1..]);
      assert s == [s[0]] + s[1..];
    }
  }

  /** Sorting twice is sorting once. */
  lemma SortIdempotent(s: seq<IpSpeed>)
    ensures SortBySpeed(SortBySpeed(s)) == SortBySpeed(s)
  {
    SortFastestFirst(s);
    SortOfSorted(SortBySpeed(s));
  }

  // ----- the ten fastest -----

  /** `sorted_ips[:10]`. */
  function Fastest(pairs: seq<IpSpeed>): seq<IpSpeed>
  {
    var sorted := SortBySpeed(pairs);
    sorted[..Min(Limit, |sorted|)]
  }

  /** The first `n` pairs and the rest together are all the pairs. */
  lemma SplitMultiset(s: seq<IpSpeed>, n: nat)
    requires n <= |s|
    ensures multiset(s) == multiset(s[..n]) + multiset(s[n..])
  {
    assert s == s[..n] + s[n..];
  }

  /** At most ten pairs come back, as many as there are up to ten, fastest
      first, and each one of the input pairs. */
  lemma FastestFacts(pairs: seq<IpSpeed>)
    ensures |Fastest(pairs)| == Min(Limit, |pairs|)
    ensures FastestFirst(Fastest(pairs))
    ensures multiset(Fastest(pairs)) <= multiset(pairs)
  {
    var sorted := SortBySpeed(pairs);
    SortFastestFirst(pairs);
    SortPermutes(pairs);
    assert |sorted| == |multiset(sorted)| == |pairs|;
    SplitMultiset(sorted, Min(Limit, |sorted|));
  }

  /** No pair left out is faster than a pair that was kept. */
  lemma FastestAreFastest(pairs: seq<IpSpeed>, x: IpSpeed, y: IpSpeed)
    requires x in multiset(pairs) - multiset(Fastest(pairs))
    requires y in Fastest(pairs)
    ensures x.speed <= y.speed
  {
    var sorted := SortBySpeed(pairs);
    SortFastestFirst(pairs);
    SortPermutes(pairs);
    var n := Min(Limit, |sorted|);
    var top, rest := sorted[..n], sorted[n..];
    SplitMultiset(sorted, n);
    assert x in multiset(rest);
    var l :| 0 <= l < |rest| && rest[l] == x;
    var k :| 0 <= k < |top| && top[k] == y;
    assert sorted[k] == y && sorted[n + l] == x;
  }

  /** The function returns as many pairs as there are wide rows, up to ten. */
  lemma FastestCount(rows: seq<Row>)
    ensures |Fastest(IpSpeedsOf(rows))| == Min(Limit, Count(Wide, rows))
  {
    IpSpeedsFromRows(rows);
    FastestFacts(IpSpeedsOf(rows));
  }

  // ----- the whole function -----

  /** The whole function: a failed request, an HTTP error status (4xx or 5xx)
      and a missing table or tbody all give the empty list. */
  function Expected(fetch: Fetch): seq<IpSpeed>
  {
    match fetch
    case RequestFailed => []
    case Fetched(status, table) =>
      if 400 <= status < 600 then []
      else
        match table
        case Found(rows) => Fastest(IpSpeedsOf(rows))
        case _ => []
  }

  method GetFastestIps(fetch: Fetch) returns (top: seq<IpSpeed>)
    ensures top == Expected(fetch)
  {
    if fetch.RequestFailed? || 400 <= fetch.status < 600 || !fetch.table.Found? {
      return [];
    }
    var pairs := CollectIpSpeeds(fetch.table.rows);
    var sorted := SortBySpeed(pairs);
    top := sorted[..Min(Limit, |sorted|)];
  }
}
