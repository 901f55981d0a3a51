/** extract_ips_selenium.py: the row loop of `extract_cloudflare_top_10_ips`,
    which keeps the trimmed text of the second `td` of each row, skips empty
    texts and the "Loading..." placeholder, and stops at ten values. */
module SeleniumTop {
  import opened Wrappers
  import opened Text
  import opened Html
  import opened Filtering

  /** The loop stops once this many addresses have been gathered. */
  const Limit: nat := 10

  /** Text the page shows in an address cell before the data has arrived. */
  const Placeholder: string := "Loading..."

  /** The address a row offers, if it has a second `td` whose trimmed text is usable. */
  function RowIp(row: Row): Option<string>
  {
    var cols := Tds(row);
    if |cols| > 1 then
      var ip := Trim(cols[1].text);
      if ip != "" && ip != Placeholder then Some(ip) else None
    else None
  }

  /** Every usable address of the rows, in row order (the loop without its cap). */
  function Candidates(rows: seq<Row>): seq<string>
  {
    Kept(RowIp, rows)
  }

  /** What the function returns for a located table body: the first ten candidates. */
  function TopIps(rows: seq<Row>): seq<string>
  {
    var c := Candidates(rows);
    c[..Min(Limit, |c|)]
  }

  /** The whole function: a timed-out wait or a missing table or tbody gives the empty list. */
  function Expected(page: Rendering): seq<string>
  {
    match page
    case Rendered(Found(rows)) => TopIps(rows)
    case _ => []
  }

  /** The row loop, with its early `break` after the tenth address. */
  method ExtractTop10Ips(page: Rendering) returns (top: seq<string>)
    ensures top == Expected(page)
    ensures |top| <= Limit
    ensures forall k :: 0 <= k < |top| ==> top[k] != "" && top[k] != Placeholder
  {
    top := [];
    if !page.Rendered? || !page.table.Found? {
      return;
    }
    var rows := page.table.rows;
    var i := 0;
    while i < |rows|
      invariant 0 <= i <= |rows|
      invariant top == Candidates(rows[..i])
      invariant |top| < Limit
    {
      CandidatesStep(rows, i);
      var cols := Tds(rows[i]);
      if |cols| > 1 {
        var ip := Trim(cols[1].text);
        if ip != "" && ip != Placeholder {
          top := top + [ip];
          if |top| >= Limit {
            CandidatesAppend(rows[..i + 1], rows[i + 1..]);
            assert rows[..i + 1] + rows[i + 1..] == rows;
            break;
          }
        }
      }
      i := i + 1;
    }
    assert |top| < Limit ==> rows[..i] == rows;
    TopIpsFacts(rows);
  }

  /** One more row adds its usable address, if any, at the end. */
  lemma CandidatesStep(rows: seq<Row>, i: nat)
    requires i < |rows|
    ensures Candidates(rows[..i + 1]) ==
      Candidates(rows[..i]) + (match RowIp(rows[i]) case Some(ip) => [ip] case None => [])
  {
    assert rows[..i + 1][..i] == rows[..i];
  }

  /** Candidates of a concatenation are the concatenated candidates. */
  lemma CandidatesAppend(a: seq<Row>, b: seq<Row>)
    ensures Candidates(a + b) == Candidates(a) + Candidates(b)
  {
    KeptAppend(RowIp, a, b);
  }

  /** Candidate `k` is the non-empty, non-placeholder stripped text of the second
      `td` of the row before which exactly `k` candidates stand, so no row gives
      more than one. */
  lemma CandidatesFacts(rows: seq<Row>)
    ensures |Candidates(rows)| <= |rows|
    ensures forall k :: 0 <= k < |Candidates(rows)| ==>
      var ip := Candidates(rows)[k];
      ip != "" && ip != Placeholder &&
      exists j :: 0 <= j < |rows| && |Candidates(rows[..j])| == k &&
        |Tds(rows[j])| > 1 && ip == Trim(Tds(rows[j])[1].text)
  {
    KeptCount(RowIp, row => RowIp(row).Some?, rows);
    var c := Candidates(rows);
    forall k | 0 <= k < |c|
      ensures c[k] != "" && c[k] != Placeholder &&
        exists j :: 0 <= j < |rows| && |Candidates(rows[..j])| == k &&
          |Tds(rows[j])| > 1 && c[k] == Trim(Tds(rows[j])[1].text)
    {
      var j := KeptFrom(RowIp, rows, k);
      assert RowIp(rows[j]) == Some(c[k]);
    }
  }

  /** Every row whose second `td` holds a usable text gives that text, right after
      the candidates of the rows before it. */
  lemma CandidatesComplete(rows: seq<Row>, j: nat)
    requires j < |rows| && |Tds(rows[j])| > 1
    requires Trim(Tds(rows[j])[1].text) != "" && Trim(Tds(rows[j])[1].text) != Placeholder
    ensures |Candidates(rows[..j])| < |Candidates(rows)|
    ensures Candidates(rows)[|Candidates(rows[..j])|] == Trim(Tds(rows[j])[1].text)
  {
    KeptAt(RowIp, rows, j);
  }

  /** The result holds at most ten addresses, all the usable ones when there are
      fewer, none empty and none the placeholder, each the trimmed second `td`
      text of a row with at least two `td`s. */
  lemma TopIpsFacts(rows: seq<Row>)
    ensures |TopIps(rows)| <= Limit
    ensures |Candidates(rows)| < Limit ==> TopIps(rows) == Candidates(rows)
    ensures forall k :: 0 <= k < |TopIps(rows)| ==>
      var ip := TopIps(rows)[k];
      ip != "" && ip != Placeholder &&
      exists j :: 0 <= j < |rows| && |Tds(rows[j])| > 1 && ip == Trim(Tds(rows[j])[1].text)
  {
    CandidatesFacts(rows);
    var c := Candidates(rows);
    assert forall k :: 0 <= k < |TopIps(rows)| ==> TopIps(rows)[k] == c[k];
  }

  /** Rows that come after the tenth usable address never influence the result. */
  lemma LaterRowsIgnored(rows: seq<Row>, more: seq<Row>)
    requires |Candidates(rows)| >= Limit
    ensures TopIps(rows + more) == TopIps(rows)
  {
    CandidatesAppend(rows, more);
  }

  /** No address validation: any trimmed, non-empty text other than the placeholder
      (say "bad-ip") in the second `td` is returned verbatim. */
  lemma NoValidation(line: Cell, ip: string, link: Link)
    requires ip != "" && ip != Placeholder && !IsSpace(ip[0]) && !IsSpace(ip[|ip| - 1])
    ensures TopIps([[line, Cell(Td, ip, link)]]) == (if line.tag == Td then [ip] else [])
  {
    var row := [line, Cell(Td, ip, link)];
    TrimUnchanged(ip);
    KeptSingle(RowIp, row);
    if line.tag == Td {
      assert Tds(row) == row;
      assert RowIp(row) == Some(ip);
      assert Candidates([row]) == [ip];
    } else {
      assert Tds(row) == [row[1]] by { assert row[1..] == [row[1]]; assert Tds(row[1..][1..]) == []; }
      assert RowIp(row) == None;
      assert Candidates([row]) == [];
    }
  }
}
