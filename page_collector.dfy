/** collect_ips-o.py: the script's loop over its URL list. For each response with
    status 200 whose table body is found, it reads the first ten rows, takes the
    stripped text of the third cell (`th` or `td`) of each row that has more than
    two, and keeps the texts the IPv4 pattern accepts, appending them to one list
    shared by all URLs. */
module PageCollector {
  import opened Wrappers
  import opened Text
  import opened Html
  import opened Filtering
  import opened Ipv4Pattern

  /** Only this many rows of each table body are read. */
  const RowLimit: nat := 10

  /** The only status code whose page is parsed. */
  const StatusOk: int := 200

  /** The address a row offers: its third cell, stripped, if the pattern accepts it. */
  function RowIp(row: Row): Option<string>
  {
    if |row| > 2 then
      var ip := Trim(row[2].text);
      if MatchesIpv4(ip) then Some(ip) else None
    else None
  }

  /** The accepted addresses of the rows, in row order. */
  function IpsOf(rows: seq<Row>): seq<string>
  {
    Kept(RowIp, rows)
  }

  /** What one table body contributes: the accepted addresses of its first ten rows. */
  function PageIps(rows: seq<Row>): seq<string>
  {
    IpsOf(rows[..Min(RowLimit, |rows|)])
  }

  /** What one URL contributes. A failed request, another status, a missing
      table (the AttributeError is caught) and a missing tbody contribute nothing. */
  function ResponseIps(f: Fetch): seq<string>
  {
    if f.Fetched? && f.status == StatusOk && f.table.Found? then PageIps(f.table.rows) else []
  }

  /** `all_ips` after the URLs of `responses` have been visited in order. */
  function AllIps(responses: seq<Fetch>): seq<string>
  {
    Gathered(ResponseIps, responses)
  }

  /** The lists `f` gives for the items of `xs`, joined in order. */
  function Gathered<T>(f: T -> seq<string>, xs: seq<T>): seq<string>
  {
    if xs == [] then [] else Gathered(f, xs[..|xs| - 1]) + f(xs[|xs| - 1])
  }

  lemma {:induction false} GatheredAppend<T>(f: T -> seq<string>, a: seq<T>, b: seq<T>)
    ensures Gathered(f, a + b) == Gathered(f, a) + Gathered(f, b)
    decreases |b|
  {
    if b == [] {
      assert a + b == a;
    } else {
      var b' := b[..|b| - 1];
      GatheredAppend(f, a, b');
      assert (a + b)[..|a + b| - 1] == a + b';
      assert (a + b)[|a + b| - 1] == b[|b| - 1];
    }
  }

  /** The script's nested loops, with the inner `break` at row ten. */
  method CollectAllIps(responses: seq<Fetch>) returns (all: seq<string>)
    ensures all == AllIps(responses)
  {
    all := [];
    var u := 0;
    while u < |responses|
      invariant 0 <= u <= |responses|
      invariant all == AllIps(responses[..u])
    {
      assert responses[..u + 1][..u] == responses[..u];
      var f := responses[u];
      if f.Fetched? && f.status == StatusOk && f.table.Found? {
        var rows := f.table.rows;
        ghost var before := all;
        var i := 0;
        while i < |rows|
          invariant 0 <= i <= |rows| && i <= RowLimit
          invariant all == before + IpsOf(rows[..i])
        {
          if i >= RowLimit {
            break;
          }
          KeptStep(RowIp, rows, i);
          var row := rows[i];
          if |row| > 2 {
            var ip := Trim(row[2].text);
            if MatchesIpv4(ip) {
              all := all + [ip];
            }
          }
          i := i + 1;
        }
        assert rows[..i] == rows[..Min(RowLimit, |rows|)];
      }
      u := u + 1;
    }
    assert responses[..u] == responses;
  }

  // ----- what the list holds -----

  /** Visiting two lists of URLs in turn gathers the two lists' addresses in turn. */
  lemma AllIpsAppend(a: seq<Fetch>, b: seq<Fetch>)
    ensures AllIps(a + b) == AllIps(a) + AllIps(b)
  {
    GatheredAppend(ResponseIps, a, b);
  }

  /** Address `k` is the stripped third cell of the row before which exactly `k`
      addresses stand (so no row gives more than one), and it is stripped and has
      the shape of an IPv4 address. */
  lemma IpsOfValid(rows: seq<Row>)
    ensures |IpsOf(rows)| <= |rows|
    ensures forall k :: 0 <= k < |IpsOf(rows)| ==>
      var ip := IpsOf(rows)[k];
      Ipv4Prefix(ip) && Trim(ip) == ip &&
      exists j :: 0 <= j < |rows| && |IpsOf(rows[..j])| == k &&
        |rows[j]| > 2 && ip == Trim(rows[j][2].text)
  {
    KeptCount(RowIp, row => RowIp(row).Some?, rows);
    var ips := IpsOf(rows);
    forall k | 0 <= k < |ips|
      ensures Ipv4Prefix(ips[k]) && Trim(ips[k]) == ips[k] &&
        exists j :: 0 <= j < |rows| && |IpsOf(rows[..j])| == k &&
          |rows[j]| > 2 && ips[k] == Trim(rows[j][2].text)
    {
      var j := KeptFrom(RowIp, rows, k);
      assert RowIp(rows[j]) == Some(ips[k]);
      MatchesIpv4Meaning(ips[k]);
      TrimIdempotent(rows[j][2].text);
    }
  }

  /** Every row whose stripped third cell has the shape of an IPv4 address gives
      that text, right after the addresses of the rows before it. */
  lemma IpsOfComplete(rows: seq<Row>, j: nat)
    requires j < |rows| && |rows[j]| > 2 && Ipv4Prefix(Trim(rows[j][2].text))
    ensures |IpsOf(rows[..j])| < |IpsOf(rows)|
    ensures IpsOf(rows)[|IpsOf(rows[..j])|] == Trim(rows[j][2].text)
  {
    MatchesIpv4Meaning(Trim(rows[j][2].text));
    KeptAt(RowIp, rows, j);
  }

  /** A one-row page: the `th` cell counts as a cell, so the third cell is read and
      an address with a port suffix is kept as it stands. */
  lemma PageIpsExample()
    ensures PageIps([[Cell(Th, "1", NoAnchor), Cell(Td, "x", NoAnchor),
                      Cell(Td, "1.2.3.4:443", NoAnchor)]]) == ["1.2.3.4:443"]
  {
    var row := [Cell(Th, "1", NoAnchor), Cell(Td, "x", NoAnchor), Cell(Td, "1.2.3.4:443", NoAnchor)];
    assert [row][..Min(RowLimit, 1)] == [row];
    TrimUnchanged(row[2].text);
    AcceptsTrailingPort();
    assert RowIp(row) == Some("1.2.3.4:443");
    KeptSingle(RowIp, row);
  }

  /** Each URL adds at most ten addresses, each stripped and IPv4-shaped. */
  lemma {:induction false} AllIpsValid(responses: seq<Fetch>)
    ensures |AllIps(responses)| <= RowLimit * |responses|
    ensures forall k :: 0 <= k < |AllIps(responses)| ==>
      Ipv4Prefix(AllIps(responses)[k]) && Trim(AllIps(responses)[k]) == AllIps(responses)[k]
  {
    if responses != [] {
      AllIpsValid(responses[..|responses| - 1]);
      var f := responses[|responses| - 1];
      if f.Fetched? && f.status == StatusOk && f.table.Found? {
        var rows := f.table.rows;
        IpsOfValid(rows[..Min(RowLimit, |rows|)]);
      }
    }
  }

  /** Rows after the tenth never contribute. */
  lemma PageIpsFirstRows(rows: seq<Row>, more: seq<Row>)
    requires |rows| >= RowLimit
    ensures PageIps(rows + more) == PageIps(rows)
  {
    assert (rows + more)[..RowLimit] == rows[..RowLimit];
  }
}
