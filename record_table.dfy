/** extract_ips.py: the row loop of `extract_cloudflare_ips_selenium`, which turns
    every row with at least eight `td` cells into a nine-field record, ranks it by
    its row position, reads the colo link from the seventh cell, and stops after
    ten records. A cell-seven anchor without `href` raises, and the whole call
    then returns None. */
module RecordTable {
  import opened Wrappers
  import opened Text
  import opened Html

  /** The loop stops once this many records have been gathered. */
  const Limit: nat := 10

  /** Rows with fewer `td` cells than this are skipped. */
  const MinColumns: nat := 8

  /** One output row. The source's dictionary keys are, in order:
      排序 rank, 线路 line, 优选IP ip, 丢包 packetLoss, 延迟 latency, 速度 speed,
      带宽 bandwidth, Colo链接 coloLink, 更新时间 updated. */
  datatype Record = Record(
    rank: nat, line: string, ip: string, packetLoss: string, latency: string,
    speed: string, bandwidth: string, coloLink: string, updated: string)

  /** What the loop body does with one row: skip it, raise, or emit a record.
      `rank` is the 1-based position of the row in the table body. */
  datatype RowOutcome = Skipped | Raises(rank: nat) | Emits(rank: nat)

  /** The loop body's verdict on row `i` (0-based): rows with fewer than eight
      `td` cells are skipped, and an anchor without `href` in the seventh cell
      raises a KeyError. */
  function ReadRow(i: nat, row: Row): (o: RowOutcome)
    ensures o.Skipped? <==> |Tds(row)| < MinColumns
    ensures o.Raises? <==> |Tds(row)| >= MinColumns && Tds(row)[6].link == AnchorWithoutHref
    ensures !o.Skipped? ==> o.rank == i + 1
  {
    var cols := Tds(row);
    if |cols| < MinColumns then Skipped
    else if cols[6].link.AnchorWithoutHref? then Raises(i + 1)
    else Emits(i + 1)
  }

  /** The record a wide row yields: stripped texts of the cells at indices 0-5
      and 7, and the `href` of the first anchor of the seventh cell (index 6), or
      "" when it has none. */
  function MakeRecord(i: nat, row: Row): Record
    requires |Tds(row)| >= MinColumns
  {
    var cols := Tds(row);
    var coloLink := match cols[6].link case Href(target) => target case _ => "";
    Record(i + 1, Trim(cols[0].text), Trim(cols[1].text), Trim(cols[2].text),
           Trim(cols[3].text), Trim(cols[4].text), Trim(cols[5].text),
           coloLink, Trim(cols[7].text))
  }

  /** The verdict on every row of the table body, in order. */
  function Verdicts(rows: seq<Row>): (vs: seq<RowOutcome>)
    ensures |vs| == |rows|
    ensures forall i :: 0 <= i < |rows| ==> vs[i] == ReadRow(i, rows[i])
  {
    seq(|rows|, i requires 0 <= i < |rows| => ReadRow(i, rows[i]))
  }

  /** Each verdict that is not a skip carries its own 1-based position. */
  predicate Ranked(vs: seq<RowOutcome>)
  {
    forall i :: 0 <= i < |vs| && !vs[i].Skipped? ==> vs[i].rank == i + 1
  }

  predicate NoneSkipped(outs: seq<RowOutcome>)
  {
    forall k :: 0 <= k < |outs| ==> !outs[k].Skipped?
  }

  /** The verdicts from position `i` on, skips left out. */
  function Outcomes(vs: seq<RowOutcome>, i: nat): (outs: seq<RowOutcome>)
    requires i <= |vs|
    ensures NoneSkipped(outs)
    decreases |vs| - i
  {
    if i == |vs| then []
    else (if vs[i].Skipped? then [] else [vs[i]]) + Outcomes(vs, i + 1)
  }

  /** How many of the first `j` verdicts are not skips. */
  function CountBefore(vs: seq<RowOutcome>, j: nat): nat
    requires j <= |vs|
  {
    if j == 0 then 0 else CountBefore(vs, j - 1) + (if vs[j - 1].Skipped? then 0 else 1)
  }

  function RanksOf(outs: seq<RowOutcome>): seq<nat>
    requires NoneSkipped(outs)
  {
    if outs == [] then [] else [outs[0].rank] + RanksOf(outs[1..])
  }

  /** The ranks of the rows that end up as records, once the rows ranked `acc`
      have been gathered and `outs` are still to come: the next outcomes up to
      the cap decide it, and a raise among them loses everything. */
  function Pick(acc: seq<nat>, outs: seq<RowOutcome>): Option<seq<nat>>
    requires |acc| <= Limit
    requires NoneSkipped(outs)
  {
    var due := outs[..Min(Limit - |acc|, |outs|)];
    if exists k :: 0 <= k < |due| && due[k].Raises? then None
    else Some(acc + RanksOf(due))
  }

  /** The ranks of the rows the function turns into records, or None when it raises. */
  function PickedRanks(rows: seq<Row>): Option<seq<nat>>
  {
    Pick([], Outcomes(Verdicts(rows), 0))
  }

  /** Every rank names a wide row. */
  predicate Emitting(rows: seq<Row>, ranks: seq<nat>)
  {
    forall k :: 0 <= k < |ranks| ==> 1 <= ranks[k] <= |rows| && |Tds(rows[ranks[k] - 1])| >= MinColumns
  }

  /** The records of the rows the ranks name, in rank order. */
  function RecordsAt(rows: seq<Row>, ranks: seq<nat>): seq<Record>
    requires Emitting(rows, ranks)
  {
    seq(|ranks|, k requires 0 <= k < |ranks| => MakeRecord(ranks[k] - 1, rows[ranks[k] - 1]))
  }

  /** The result for a located table body: the records of the first ten wide
      rows, or None when one of those rows raises. */
  function Reference(rows: seq<Row>): Option<seq<Record>>
  {
    match PickedRanks(rows)
    case None => None
    case Some(ranks) =>
      PickedEmitting(rows);
      Some(RecordsAt(rows, ranks))
  }

  /** The whole function once the import is in place: a timed-out wait or a missing
      table or tbody gives None. */
  function Expected(page: Rendering): Option<seq<Record>>
  {
    match page
    case Rendered(Found(rows)) => Reference(rows)
    case _ => None
  }

  /** The enumerated row loop with its early `break` after the tenth record. */
  method ExtractRecords(page: Rendering) returns (result: Option<seq<Record>>)
    ensures result == Expected(page)
  {
    if !page.Rendered? || !page.table.Found? {
      return None;
    }
    var rows := page.table.rows;
    ghost var vs := Verdicts(rows);
    var data: seq<Record> := [];
    ghost var ranks: seq<nat> := [];
    var i := 0;
    while i < |rows|
      invariant 0 <= i <= |rows|
      invariant |data| == |ranks| < Limit
      invariant Emitting(rows, ranks) && data == RecordsAt(rows, ranks)
      invariant Pick(ranks, Outcomes(vs, i)) == PickedRanks(rows)
    {
      var cols := Tds(rows[i]);
      if |cols| < MinColumns {
        PickSkip(vs, i, ranks);
      } else {
        if cols[6].link.AnchorWithoutHref? {
          PickRaise(vs, i, ranks);
          return None;
        }
        var rec := MakeRecord(i, rows[i]);
        EmitStep(rows, vs, i, ranks);
        data := data + [rec];
        ranks := ranks + [i + 1];
        if |data| >= Limit {
          PickFull(ranks, Outcomes(vs, i + 1));
          break;
        }
      }
      i := i + 1;
    }
    if i == |rows| {
      PickFull(ranks, []);
    }
    return Some(data);
  }

  /** One emitting row: its rank joins the gathered ranks and its record the data. */
  lemma EmitStep(rows: seq<Row>, vs: seq<RowOutcome>, i: nat, ranks: seq<nat>)
    requires vs == Verdicts(rows) && i < |rows| && |ranks| < Limit && Emitting(rows, ranks)
    requires |Tds(rows[i])| >= MinColumns && !Tds(rows[i])[6].link.AnchorWithoutHref?
    ensures Pick(ranks, Outcomes(vs, i)) == Pick(ranks + [i + 1], Outcomes(vs, i + 1))
    ensures Emitting(rows, ranks + [i + 1])
    ensures RecordsAt(rows, ranks + [i + 1]) == RecordsAt(rows, ranks) + [MakeRecord(i, rows[i])]
  {
    PickEmit(vs, i, ranks);
    RecordsAtSnoc(rows, ranks, i + 1);
  }

  /** Appending a rank appends that row's record. */
  lemma RecordsAtSnoc(rows: seq<Row>, ranks: seq<nat>, rank: nat)
    requires Emitting(rows, ranks)
    requires 1 <= rank <= |rows| && |Tds(rows[rank - 1])| >= MinColumns
    ensures Emitting(rows, ranks + [rank])
    ensures RecordsAt(rows, ranks + [rank]) == RecordsAt(rows, ranks) + [MakeRecord(rank - 1, rows[rank - 1])]
  {
    var ext := ranks + [rank];
    var a := RecordsAt(rows, ext);
    var b := RecordsAt(rows, ranks) + [MakeRecord(rank - 1, rows[rank - 1])];
    forall k | 0 <= k < |ext|
      ensures a[k] == b[k]
    {
      if k < |ranks| {
        assert ext[k] == ranks[k];
      }
    }
  }

  /** With the cap reached, or nothing left, the gathered ranks are the result. */
  lemma PickFull(acc: seq<nat>, outs: seq<RowOutcome>)
    requires |acc| <= Limit && NoneSkipped(outs)
    requires |acc| == Limit || outs == []
    ensures Pick(acc, outs) == Some(acc)
  {
    var due := outs[..Min(Limit - |acc|, |outs|)];
    assert due == [];
    assert RanksOf(due) == [];
    assert acc + RanksOf(due) == acc;
  }

  /** A skipped row leaves the pick unchanged. */
  lemma PickSkip(vs: seq<RowOutcome>, i: nat, acc: seq<nat>)
    requires i < |vs| && |acc| < Limit
    requires vs[i].Skipped?
    ensures Pick(acc, Outcomes(vs, i)) == Pick(acc, Outcomes(vs, i + 1))
  {
    assert Outcomes(vs, i) == Outcomes(vs, i + 1);
  }

  /** A raising row, met before the cap, loses everything. */
  lemma PickRaise(vs: seq<RowOutcome>, i: nat, acc: seq<nat>)
    requires i < |vs| && |acc| < Limit
    requires vs[i].Raises?
    ensures Pick(acc, Outcomes(vs, i)) == None
  {
    var outs := Outcomes(vs, i);
    assert outs == [vs[i]] + Outcomes(vs, i + 1);
    var due := outs[..Min(Limit - |acc|, |outs|)];
    assert due[0].Raises?;
  }

  /** An emitting row moves its rank from the outcomes to the gathered ranks. */
  lemma PickEmit(vs: seq<RowOutcome>, i: nat, acc: seq<nat>)
    requires i < |vs| && |acc| < Limit
    requires vs[i].Emits?
    ensures Pick(acc, Outcomes(vs, i)) == Pick(acc + [vs[i].rank], Outcomes(vs, i + 1))
  {
    var o := vs[i];
    var rest := Outcomes(vs, i + 1);
    var outs := Outcomes(vs, i);
    assert outs == [o] + rest;
    var due := outs[..Min(Limit - |acc|, |outs|)];
    var due' := rest[..Min(Limit - |acc| - 1, |rest|)];
    assert due == [o] + due';
    if exists k :: 0 <= k < |due| && due[k].Raises? {
      var k :| 0 <= k < |due| && due[k].Raises?;
      assert due'[k - 1].Raises?;
    } else {
      assert due[1..] == due';
      assert RanksOf(due) == [o.rank] + RanksOf(due');
      assert acc + RanksOf(due) == (acc + [o.rank]) + RanksOf(due');
    }
  }

  /** Outcome `k` from position `i` on is the verdict of the row its rank names,
      and exactly `k` non-skip verdicts stand between `i` and that row. */
  lemma {:induction false} OutcomeAt(vs: seq<RowOutcome>, i: nat, k: nat)
    requires i <= |vs| && Ranked(vs)
    requires k < |Outcomes(vs, i)|
    ensures var o := Outcomes(vs, i)[k];
      i < o.rank <= |vs| && vs[o.rank - 1] == o && CountBefore(vs, o.rank - 1) == CountBefore(vs, i) + k
    decreases |vs| - i
  {
    var rest := Outcomes(vs, i + 1);
    if vs[i].Skipped? {
      assert Outcomes(vs, i) == rest;
      OutcomeAt(vs, i + 1, k);
    } else {
      assert Outcomes(vs, i) == [vs[i]] + rest;
      if k > 0 {
        OutcomeAt(vs, i + 1, k - 1);
      }
    }
  }

  /** Counting over a longer prefix never gives less. */
  lemma {:induction false} CountMonotone(vs: seq<RowOutcome>, i: nat, j: nat)
    requires i <= j <= |vs|
    ensures CountBefore(vs, i) <= CountBefore(vs, j)
    decreases j - i
  {
    if i < j {
      CountMonotone(vs, i, j - 1);
    }
  }

  /** The outcome of a non-skip verdict sits at the position given by the number
      of non-skip verdicts before it. */
  lemma {:induction false} OutcomesIndex(vs: seq<RowOutcome>, i: nat, j: nat)
    requires i <= j < |vs|
    requires !vs[j].Skipped?
    ensures CountBefore(vs, i) <= CountBefore(vs, j)
    ensures CountBefore(vs, j) - CountBefore(vs, i) < |Outcomes(vs, i)|
    ensures Outcomes(vs, i)[CountBefore(vs, j) - CountBefore(vs, i)] == vs[j]
    decreases j - i
  {
    var rest := Outcomes(vs, i + 1);
    if vs[i].Skipped? {
      assert Outcomes(vs, i) == rest;
    } else {
      assert Outcomes(vs, i) == [vs[i]] + rest;
    }
    if i < j {
      OutcomesIndex(vs, i + 1, j);
    }
  }

  /** `RanksOf` keeps the rank of each outcome, position by position. */
  lemma {:induction false} RanksOfAt(outs: seq<RowOutcome>)
    requires NoneSkipped(outs)
    ensures |RanksOf(outs)| == |outs|
    ensures forall k :: 0 <= k < |outs| ==> RanksOf(outs)[k] == outs[k].rank
  {
    if outs != [] {
      RanksOfAt(outs[1..]);
    }
  }

  /** The first ten outcomes and the ranks picked from them, when nothing raises. */
  lemma PickedFromOutcomes(rows: seq<Row>)
    requires PickedRanks(rows).Some?
    ensures var outs := Outcomes(Verdicts(rows), 0); var r := PickedRanks(rows).value;
      |r| == Min(Limit, |outs|) &&
      forall k :: 0 <= k < |r| ==> r[k] == outs[k].rank && outs[k].Emits?
  {
    var outs := Outcomes(Verdicts(rows), 0);
    var due := outs[..Min(Limit, |outs|)];
    RanksOfAt(due);
    assert PickedRanks(rows).value == RanksOf(due);
  }

  /** The picked ranks number at most ten and each names a wide row. */
  lemma PickedEmitting(rows: seq<Row>)
    requires PickedRanks(rows).Some?
    ensures |PickedRanks(rows).value| <= Limit
    ensures Emitting(rows, PickedRanks(rows).value)
  {
    PickedPositions(rows);
  }

  /** Each picked rank names a wide row whose seventh cell has no anchor or an
      anchor with `href`, and is preceded by exactly as many non-skipped rows as
      ranks come before it. */
  lemma PickedPositions(rows: seq<Row>)
    requires PickedRanks(rows).Some?
    ensures |PickedRanks(rows).value| <= Limit
    ensures forall k :: 0 <= k < |PickedRanks(rows).value| ==>
      var rank := PickedRanks(rows).value[k];
      1 <= rank <= |rows| && ReadRow(rank - 1, rows[rank - 1]) == Emits(rank) &&
      CountBefore(Verdicts(rows), rank - 1) == k
  {
    var vs := Verdicts(rows);
    var outs := Outcomes(vs, 0);
    var r := PickedRanks(rows).value;
    PickedFromOutcomes(rows);
    forall k | 0 <= k < |r|
      ensures 1 <= r[k] <= |rows| && ReadRow(r[k] - 1, rows[r[k] - 1]) == Emits(r[k])
      ensures CountBefore(vs, r[k] - 1) == k
    {
      OutcomeAt(vs, 0, k);
    }
  }

  /** How many rows before position `j` have at least eight `td` cells. */
  function WideBefore(rows: seq<Row>, j: nat): nat
    requires j <= |rows|
  {
    if j == 0 then 0 else WideBefore(rows, j - 1) + (if |Tds(rows[j - 1])| >= MinColumns then 1 else 0)
  }

  /** Non-skip verdicts are exactly wide rows. */
  lemma {:induction false} WideBeforeCounts(rows: seq<Row>, j: nat)
    requires j <= |rows|
    ensures CountBefore(Verdicts(rows), j) == WideBefore(rows, j)
  {
    if j > 0 {
      WideBeforeCounts(rows, j - 1);
    }
  }

  /** When nothing raises, the records are those of the picked ranks, one for one. */
  lemma ReferenceRanks(rows: seq<Row>)
    requires Reference(rows).Some?
    ensures PickedRanks(rows).Some?
    ensures |Reference(rows).value| == |PickedRanks(rows).value| <= Limit
    ensures forall k :: 0 <= k < |Reference(rows).value| ==>
      var rank := PickedRanks(rows).value[k];
      Reference(rows).value[k].rank == rank && 1 <= rank <= |rows| &&
      |Tds(rows[rank - 1])| >= MinColumns &&
      Reference(rows).value[k] == MakeRecord(rank - 1, rows[rank - 1])
  {
    PickedEmitting(rows);
  }

  /** The result, when there is one, holds at most ten records; record `k` is
      the record of the row its rank names, a wide row whose seventh cell has no
      anchor or an anchor with `href`, before which exactly `k` wide rows stand. */
  lemma ReferenceRecords(rows: seq<Row>)
    requires Reference(rows).Some?
    ensures |Reference(rows).value| <= Limit
    ensures forall k :: 0 <= k < |Reference(rows).value| ==>
      var rec := Reference(rows).value[k];
      1 <= rec.rank <= |rows| && ReadRow(rec.rank - 1, rows[rec.rank - 1]) == Emits(rec.rank) &&
      rec == MakeRecord(rec.rank - 1, rows[rec.rank - 1]) && WideBefore(rows, rec.rank - 1) == k
  {
    ReferenceRanks(rows);
    forall k | 0 <= k < |Reference(rows).value|
      ensures var rec := Reference(rows).value[k];
        1 <= rec.rank <= |rows| && ReadRow(rec.rank - 1, rows[rec.rank - 1]) == Emits(rec.rank) &&
        rec == MakeRecord(rec.rank - 1, rows[rec.rank - 1]) && WideBefore(rows, rec.rank - 1) == k
    {
      RecordAt(rows, k);
    }
  }

  /** Record `k` in terms of the `k`-th picked rank. */
  lemma RecordAt(rows: seq<Row>, k: nat)
    requires Reference(rows).Some? && k < |Reference(rows).value|
    ensures var rec := Reference(rows).value[k];
      1 <= rec.rank <= |rows| && ReadRow(rec.rank - 1, rows[rec.rank - 1]) == Emits(rec.rank) &&
      rec == MakeRecord(rec.rank - 1, rows[rec.rank - 1]) && WideBefore(rows, rec.rank - 1) == k
  {
    ReferenceRanks(rows);
    PickedPositions(rows);
    var rank := PickedRanks(rows).value[k];
    assert Reference(rows).value[k].rank == rank;
    WideBeforeCounts(rows, rank - 1);
  }

  /** There are never more records than wide rows. */
  lemma ReferenceAtMostWide(rows: seq<Row>)
    requires Reference(rows).Some?
    ensures |Reference(rows).value| <= WideBefore(rows, |rows|)
  {
    var r := Reference(rows).value;
    if r != [] {
      RecordAt(rows, |r| - 1);
      var rank := r[|r| - 1].rank;
      WideBeforeCounts(rows, rank);
      WideBeforeCounts(rows, |rows|);
      CountMonotone(Verdicts(rows), rank, |rows|);
    }
  }

  /** Records appear in row order: their ranks rise strictly. */
  lemma ReferenceInRowOrder(rows: seq<Row>)
    requires Reference(rows).Some?
    ensures forall k, l :: 0 <= k < l < |Reference(rows).value| ==>
      Reference(rows).value[k].rank < Reference(rows).value[l].rank
  {
    ReferenceRanks(rows);
    PickedPositions(rows);
    var vs := Verdicts(rows);
    var ranks := PickedRanks(rows).value;
    forall k, l | 0 <= k < l < |ranks|
      ensures ranks[k] < ranks[l]
    {
      if ranks[l] <= ranks[k] {
        CountMonotone(vs, ranks[l] - 1, ranks[k] - 1);
      }
    }
  }

  /** Every wide row up to the cap is picked, at the position counting the wide
      rows before it. */
  lemma PickedComplete(rows: seq<Row>, j: nat)
    requires PickedRanks(rows).Some?
    requires j < |rows| && |Tds(rows[j])| >= MinColumns
    requires var r := PickedRanks(rows).value; |r| < Limit || j + 1 < r[|r| - 1]
    ensures WideBefore(rows, j) < |PickedRanks(rows).value|
    ensures PickedRanks(rows).value[WideBefore(rows, j)] == j + 1
  {
    var vs := Verdicts(rows);
    var outs := Outcomes(vs, 0);
    OutcomesIndex(vs, 0, j);
    WideBeforeCounts(rows, j);
    var m := WideBefore(rows, j);
    assert outs[m] == vs[j];
    PickedFromOutcomes(rows);
    var ranks := PickedRanks(rows).value;
    if |ranks| == Limit && m >= Limit - 1 {
      OutcomeAt(vs, 0, Limit - 1);
      CountMonotone(vs, j, ranks[Limit - 1] - 1);
    }
  }

  /** No wide row is dropped: when fewer than ten records came back, every wide
      row produced one, and otherwise every wide row before the last record did;
      the record of row `j` sits at the position counting the wide rows before it. */
  lemma ReferenceComplete(rows: seq<Row>, j: nat)
    requires Reference(rows).Some?
    requires j < |rows| && |Tds(rows[j])| >= MinColumns
    requires var r := Reference(rows).value; |r| < Limit || j + 1 < r[|r| - 1].rank
    ensures WideBefore(rows, j) < |Reference(rows).value|
    ensures Reference(rows).value[WideBefore(rows, j)].rank == j + 1
  {
    ReferenceRanks(rows);
    PickedComplete(rows, j);
  }

  /** A raising row among the first ten wide rows loses the picked ranks. */
  lemma PickedNoneFromRow(rows: seq<Row>, j: nat)
    requires j < |rows| && ReadRow(j, rows[j]).Raises? && WideBefore(rows, j) < Limit
    ensures PickedRanks(rows).None?
  {
    var vs := Verdicts(rows);
    var outs := Outcomes(vs, 0);
    var due := outs[..Min(Limit, |outs|)];
    OutcomesIndex(vs, 0, j);
    WideBeforeCounts(rows, j);
    assert due[WideBefore(rows, j)].Raises?;
  }

  /** Picked ranks are lost only through a raising row among the first ten wide rows. */
  lemma PickedNoneWitness(rows: seq<Row>)
    requires PickedRanks(rows).None?
    ensures exists j :: 0 <= j < |rows| && ReadRow(j, rows[j]).Raises? && WideBefore(rows, j) < Limit
  {
    var vs := Verdicts(rows);
    var outs := Outcomes(vs, 0);
    var k := PickRaiseAt(outs);
    OutcomeAt(vs, 0, k);
    var j := outs[k].rank - 1;
    WideBeforeCounts(rows, j);
    assert ReadRow(j, rows[j]).Raises? && WideBefore(rows, j) < Limit;
  }

  /** A lost pick from scratch points at a raise among the first ten outcomes. */
  lemma PickRaiseAt(outs: seq<RowOutcome>) returns (k: nat)
    requires NoneSkipped(outs) && Pick([], outs).None?
    ensures k < Limit && k < |outs| && outs[k].Raises?
  {
    var due := outs[..Min(Limit, |outs|)];
    k :| 0 <= k < |due| && due[k].Raises?;
  }

  /** The call yields None exactly when a wide row whose seventh cell holds an
      anchor without `href` is among the first ten wide rows. */
  lemma ReferenceNone(rows: seq<Row>)
    ensures Reference(rows).None? <==>
      exists j :: 0 <= j < |rows| && ReadRow(j, rows[j]).Raises? && WideBefore(rows, j) < Limit
  {
    if Reference(rows).None? {
      PickedNoneWitness(rows);
    }
    if exists j :: 0 <= j < |rows| && ReadRow(j, rows[j]).Raises? && WideBefore(rows, j) < Limit {
      var j :| 0 <= j < |rows| && ReadRow(j, rows[j]).Raises? && WideBefore(rows, j) < Limit;
      PickedNoneFromRow(rows, j);
    }
  }

  /** As written, the function calls `BeautifulSoup` without importing it: the
      NameError is caught by the `except Exception` handler, so every call,
      whatever the page holds, returns None. */
  function ExpectedAsWritten(page: Rendering): (result: Option<seq<Record>>)
    ensures result.None?
  {
    match page
    case WaitTimedOut => None
    case Rendered(_) => None
  }

  /** On a table body holding one wide row whose seventh cell does not raise,
      the intended code returns exactly that row's record, while the code as
      written returns None. */
  lemma MissingImportLosesRecords(row: Row)
    requires |Tds(row)| >= MinColumns && !Tds(row)[6].link.AnchorWithoutHref?
    ensures ExpectedAsWritten(Rendered(Found([row]))) == None
    ensures Expected(Rendered(Found([row]))) == Some([MakeRecord(0, row)])
  {
    var rows := [row];
    assert ReadRow(0, row) == Emits(1);
    ReferenceNone(rows);
    var r := Reference(rows).value;
    ReferenceAtMostWide(rows);
    assert WideBefore(rows, 1) == 1;
    ReferenceComplete(rows, 0);
    RecordAt(rows, 0);
    assert |r| == 1 && r[0] == MakeRecord(0, row);
    assert r == [MakeRecord(0, row)];
  }

  /** A well-formed eight-column row, as the status page publishes it. */
  const SampleRow: Row := [
    Cell(Td, "电信", NoAnchor), Cell(Td, "172.64.82.114", NoAnchor), Cell(Td, "0.00%", NoAnchor),
    Cell(Td, "136.85ms", NoAnchor), Cell(Td, "6.92mb/s", NoAnchor), Cell(Td, "55.36mb", NoAnchor),
    Cell(Td, "HKG", Href("https://example.com/colo")), Cell(Td, "2024-01-01", NoAnchor)]

  /** The sample row is such a row: eight `td` cells, the seventh linking to its colo page. */
  lemma SampleRowIsWide()
    ensures |Tds(SampleRow)| == MinColumns
    ensures Tds(SampleRow)[6].link == Href("https://example.com/colo")
  {
    TdsAllData(SampleRow);
  }
}
