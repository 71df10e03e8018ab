/**
  The `/api/busyness` endpoint: check the two query parameters, lower-case
  the period, keep the rows with that date and period, and turn each kept
  row into a record, skipping rows whose `LocationID` is not an integer.
*/
module Busyness {
  import opened Wrappers
  import opened Strings
  import opened Summary

  /** One element of the JSON array the endpoint answers with. */
  datatype Record = Record(locationId: int, zone: string, ridership: real, category: string)

  const MissingParameters: string := "Missing date or period"

  /** Either the 400 error body or the 200 array of records. */
  datatype Response = BadRequest(error: string) | Ok(records: seq<Record>)
  {
    function Status(): int {
      if BadRequest? then 400 else 200
    }
  }

  /** A query parameter is usable when it is present and not the empty string. */
  predicate Present(arg: Option<string>) {
    arg.Some? && arg.value != ""
  }

  /** The boolean mask: the row has exactly this date and this (lower-cased) period. */
  predicate Matches<Id>(row: Row<Id>, date: string, period: string) {
    row.date == date && row.period == period
  }

  /** A row that ends up in the answer: it matches and its id converts. */
  predicate Kept<Id>(row: Row<Id>, date: string, period: string, toInt: Id -> Option<int>) {
    Matches(row, date, period) && toInt(row.locationId).Some?
  }

  function ToRecord<Id>(row: Row<Id>, id: int): Record {
    Record(id, row.zone, row.ridership, row.category)
  }

  /** `rec` is the record of `row`: the converted id and the copied columns. */
  predicate RecordOf<Id>(rec: Record, row: Row<Id>, toInt: Id -> Option<int>) {
    toInt(row.locationId) == Some(rec.locationId) && rec == ToRecord(row, rec.locationId)
  }

  /** The rows selected by the mask, in table order. */
  function Select<Id>(table: Table<Id>, date: string, period: string): (rows: Table<Id>)
    ensures |rows| <= |table|
  {
    if table == [] then []
    else
      var n := |table| - 1;
      Select(table[..n], date, period) + (if Matches(table[n], date, period) then [table[n]] else [])
  }

  /**
    The positions in the table of the rows the mask keeps, in order:
    strictly increasing, and holding exactly the matching rows.
  */
  ghost function MatchPositions<Id>(table: Table<Id>, date: string, period: string): (ix: seq<nat>)
    ensures forall k :: 0 <= k < |ix| ==> ix[k] < |table|
    ensures forall k, l :: 0 <= k < l < |ix| ==> ix[k] < ix[l]
    ensures forall i :: 0 <= i < |table| ==> (i in ix <==> Matches(table[i], date, period))
  {
    if table == [] then []
    else
      var n := |table| - 1;
      var ix' := MatchPositions(table[..n], date, period);
      assert forall i :: 0 <= i < n ==> table[..n][i] == table[i];
      ix' + (if Matches(table[n], date, period) then [n] else [])
  }

  /** The mask keeps the table's rows at the matching positions, in table order. */
  lemma {:induction false} SelectAtMatchPositions<Id>(table: Table<Id>, date: string, period: string)
    ensures var ix := MatchPositions(table, date, period);
            var rows := Select(table, date, period);
            |rows| == |ix| && forall k :: 0 <= k < |ix| ==> rows[k] == table[ix[k]]
  {
    if table != [] {
      var n := |table| - 1;
      var pre := table[..n];
      SelectAtMatchPositions(pre, date, period);
      var ix' := MatchPositions(pre, date, period);
      var rows' := Select(pre, date, period);
      assert forall k :: 0 <= k < |ix'| ==> pre[ix'[k]] == table[ix'[k]];
      if Matches(table[n], date, period) {
        assert Select(table, date, period) == rows' + [table[n]];
        assert MatchPositions(table, date, period) == ix' + [n];
      } else {
        assert Select(table, date, period) == rows';
        assert MatchPositions(table, date, period) == ix';
      }
    }
  }

  /** A row is selected exactly when it is a row of the table with that date and period. */
  lemma {:induction false} SelectKeepsMatching<Id>(table: Table<Id>, date: string, period: string)
    ensures forall r :: r in Select(table, date, period) <==> r in table && Matches(r, date, period)
  {
    SelectAtMatchPositions(table, date, period);
    var ix := MatchPositions(table, date, period);
    var rows := Select(table, date, period);
    forall r ensures r in rows <==> r in table && Matches(r, date, period) {
      if r in rows {
        var k :| 0 <= k < |rows| && rows[k] == r;
        assert ix[k] in ix;
      }
      if r in table && Matches(r, date, period) {
        var i :| 0 <= i < |table| && table[i] == r;
        var k :| 0 <= k < |ix| && ix[k] == i;
        assert rows[k] == r;
      }
    }
  }

  /** The mask selects nothing exactly when no row has that date and period. */
  lemma {:induction false} SelectEmptyIff<Id>(table: Table<Id>, date: string, period: string)
    ensures Select(table, date, period) == [] <==> forall i :: 0 <= i < |table| ==> !Matches(table[i], date, period)
  {
    SelectAtMatchPositions(table, date, period);
    SelectKeepsMatching(table, date, period);
    var ix := MatchPositions(table, date, period);
    if Select(table, date, period) != [] {
      assert ix[0] in ix;
      assert Matches(table[ix[0]], date, period);
    } else {
      forall i | 0 <= i < |table| ensures !Matches(table[i], date, period) {
        assert table[i] in table;
      }
    }
  }

  /** The loop over the selected rows: one record per row whose id converts. */
  function Project<Id>(rows: Table<Id>, toInt: Id -> Option<int>): (records: seq<Record>)
    ensures |records| <= |rows|
  {
    if rows == [] then []
    else
      var n := |rows| - 1;
      Project(rows[..n], toInt) +
        match toInt(rows[n].locationId)
        case Some(id) => [ToRecord(rows[n], id)]
        case None => []
  }

  /** What the endpoint answers for a table and the two raw query parameters. */
  function Busyness<Id>(table: Table<Id>, date: Option<string>, period: Option<string>,
                        toInt: Id -> Option<int>): Response
  {
    if !Present(date) || !Present(period) then BadRequest(MissingParameters)
    else Ok(Project(Select(table, date.value, Lower(period.value)), toInt))
  }

  /**
    The handler: parameter check, lower-casing, the mask, the early empty
    answer, and the loop that appends a record per row and skips a row whose
    `LocationID` does not convert.
  */
  method ApiBusyness<Id>(table: Table<Id>, dateArg: Option<string>, periodArg: Option<string>,
                         toInt: Id -> Option<int>) returns (response: Response)
    ensures response == Busyness(table, dateArg, periodArg, toInt)
  {
    if dateArg.None? || dateArg.value == "" || periodArg.None? || periodArg.value == "" {
      return BadRequest(MissingParameters);
    }
    var keyDate := dateArg.value;
    var period := Lower(periodArg.value);
    var df := Select(table, keyDate, period);
    if |df| == 0 {
      return Ok([]);
    }
    var records: seq<Record> := [];
    for i := 0 to |df|
      invariant records == Project(df[..i], toInt)
    {
      assert df[..i + 1][..i] == df[..i];
      var locId := toInt(df[i].locationId);
      if locId.None? {
        continue;
      }
      records := records + [ToRecord(df[i], locId.value)];
    }
    assert df[..|df|] == df;
    return Ok(records);
  }

  // ---------------------------------------------------------------------
  // Which rows the answer comes from
  // ---------------------------------------------------------------------

  /**
    The positions in the table of the rows that produce a record, in order:
    strictly increasing, and holding exactly the kept rows.
  */
  ghost function SourceRows<Id>(table: Table<Id>, date: string, period: string,
                                toInt: Id -> Option<int>): (ix: seq<nat>)
    ensures forall k :: 0 <= k < |ix| ==> ix[k] < |table|
    ensures forall k, l :: 0 <= k < l < |ix| ==> ix[k] < ix[l]
    ensures forall i :: 0 <= i < |table| ==> (i in ix <==> Kept(table[i], date, period, toInt))
  {
    if table == [] then []
    else
      var n := |table| - 1;
      var ix' := SourceRows(table[..n], date, period, toInt);
      assert forall i :: 0 <= i < n ==> table[..n][i] == table[i];
      ix' + (if Kept(table[n], date, period, toInt) then [n] else [])
  }

  /** Projecting one more row adds that row's record, if its id converts. */
  lemma ProjectSnoc<Id>(rows: Table<Id>, row: Row<Id>, toInt: Id -> Option<int>)
    ensures Project(rows + [row], toInt) ==
            Project(rows, toInt) + (if toInt(row.locationId).Some? then [ToRecord(row, toInt(row.locationId).value)] else [])
  {
    assert (rows + [row])[..|rows|] == rows;
  }

  /** `records[k]` is the record of the row at position `ix[k]`, for every `k`. */
  ghost predicate Aligned<Id>(records: seq<Record>, ix: seq<nat>, table: Table<Id>, toInt: Id -> Option<int>) {
    |records| == |ix| &&
    forall k :: 0 <= k < |ix| ==> ix[k] < |table| && RecordOf(records[k], table[ix[k]], toInt)
  }

  /** Alignment with a prefix of the table survives adding the next row, kept or not. */
  lemma AlignedSnoc<Id>(records: seq<Record>, ix: seq<nat>, table: Table<Id>, toInt: Id -> Option<int>)
    requires table != []
    requires Aligned(records, ix, table[..|table| - 1], toInt)
    ensures Aligned(records, ix, table, toInt)
    ensures var n := |table| - 1;
            toInt(table[n].locationId).Some? ==>
              Aligned(records + [ToRecord(table[n], toInt(table[n].locationId).value)], ix + [n], table, toInt)
  {
    var n := |table| - 1;
    assert forall k :: 0 <= k < |ix| ==> table[..n][ix[k]] == table[ix[k]];
  }

  /**
    The selected-and-projected records are, one for one and in order, the
    records of the rows at `SourceRows`.
  */
  lemma {:induction false} ProjectSelectFromSourceRows<Id>(table: Table<Id>, date: string, period: string,
                                                          toInt: Id -> Option<int>)
    ensures Aligned(Project(Select(table, date, period), toInt), SourceRows(table, date, period, toInt), table, toInt)
  {
    if table != [] {
      var n := |table| - 1;
      var pre := table[..n];
      var last := table[n];
      ProjectSelectFromSourceRows(pre, date, period, toInt);
      var ix' := SourceRows(pre, date, period, toInt);
      var records' := Project(Select(pre, date, period), toInt);
      AlignedSnoc(records', ix', table, toInt);
      if Matches(last, date, period) {
        assert Select(table, date, period) == Select(pre, date, period) + [last];
        ProjectSnoc(Select(pre, date, period), last, toInt);
      } else {
        assert Select(table, date, period) == Select(pre, date, period);
      }
    }
  }

  /** The length of the answer never exceeds the number of matching rows, with equality exactly when every matching id converts. */
  lemma {:induction false} ProjectLength<Id>(rows: Table<Id>, toInt: Id -> Option<int>)
    ensures |Project(rows, toInt)| == |rows| <==> forall i :: 0 <= i < |rows| ==> toInt(rows[i].locationId).Some?
  {
    if rows != [] {
      var n := |rows| - 1;
      ProjectLength(rows[..n], toInt);
      assert forall i :: 0 <= i < n ==> rows[..n][i] == rows[i];
    }
  }

  // ---------------------------------------------------------------------
  // Properties of the endpoint
  // ---------------------------------------------------------------------

  /** The answer is the 400 error exactly when a parameter is missing or empty. */
  lemma MissingParameterRejected<Id>(table: Table<Id>, date: Option<string>, period: Option<string>,
                                     toInt: Id -> Option<int>)
    ensures var response := Busyness(table, date, period, toInt);
            response.BadRequest? <==> !Present(date) || !Present(period)
    ensures var response := Busyness(table, date, period, toInt);
            response.BadRequest? ==> response.Status() == 400 && response.error == MissingParameters
    ensures var response := Busyness(table, date, period, toInt);
            response.Ok? ==> response.Status() == 200
  {
  }

  /**
    With both parameters present, the answer lists, in table order, one
    record for each row with the given date, the lower-cased period and a
    convertible id, and nothing else.
  */
  lemma BusynessInTableOrder<Id>(table: Table<Id>, date: string, period: string,
                                 toInt: Id -> Option<int>)
    requires date != "" && period != ""
    ensures var response := Busyness(table, Some(date), Some(period), toInt);
            var ix := SourceRows(table, date, Lower(period), toInt);
            response.Ok? &&
            |response.records| == |ix| &&
            (forall k :: 0 <= k < |ix| ==> RecordOf(response.records[k], table[ix[k]], toInt)) &&
            (forall k, l :: 0 <= k < l < |ix| ==> ix[k] < ix[l]) &&
            (forall i :: 0 <= i < |table| ==> (i in ix <==> Kept(table[i], date, Lower(period), toInt)))
  {
    ProjectSelectFromSourceRows(table, date, Lower(period), toInt);
  }

  /**
    Soundness: every record comes from a row whose date equals the input
    date, whose period equals the lower-cased input period, whose id converts
    to the record's id, and whose zone, ridership and category it copies.
  */
  lemma BusynessSound<Id>(table: Table<Id>, date: string, period: string,
                          toInt: Id -> Option<int>, rec: Record)
    requires date != "" && period != ""
    requires rec in Busyness(table, Some(date), Some(period), toInt).records
    ensures exists i :: 0 <= i < |table| && Matches(table[i], date, Lower(period)) && RecordOf(rec, table[i], toInt)
  {
    BusynessInTableOrder(table, date, period, toInt);
    var records := Busyness(table, Some(date), Some(period), toInt).records;
    var ix := SourceRows(table, date, Lower(period), toInt);
    var k :| 0 <= k < |records| && records[k] == rec;
    assert Kept(table[ix[k]], date, Lower(period), toInt) by {
      assert ix[k] in ix;
    }
  }

  /**
    Completeness: every row with the input date, the lower-cased period and a
    convertible id contributes its record to the answer.
  */
  lemma BusynessComplete<Id>(table: Table<Id>, date: string, period: string,
                             toInt: Id -> Option<int>, i: int)
    requires date != "" && period != ""
    requires 0 <= i < |table| && Kept(table[i], date, Lower(period), toInt)
    ensures var records := Busyness(table, Some(date), Some(period), toInt).records;
            exists k :: 0 <= k < |records| && RecordOf(records[k], table[i], toInt)
  {
    BusynessInTableOrder(table, date, period, toInt);
    var ix := SourceRows(table, date, Lower(period), toInt);
    var k :| 0 <= k < |ix| && ix[k] == i;
    var records := Busyness(table, Some(date), Some(period), toInt).records;
    assert RecordOf(records[k], table[i], toInt);
  }

  /**
    A row whose id does not convert is skipped rather than failing the
    request: the answer is still a 200 array, at most as long as the list of
    matching rows, as long exactly when every matching id converts, and
    empty when no row has the date and the lower-cased period.
  */
  lemma BusynessSkipsBadIds<Id>(table: Table<Id>, date: string, period: string,
                                toInt: Id -> Option<int>)
    requires date != "" && period != ""
    ensures var response := Busyness(table, Some(date), Some(period), toInt);
            var matching := Select(table, date, Lower(period));
            response.Ok? &&
            |response.records| <= |matching| &&
            (|response.records| == |matching| <==>
               forall j :: 0 <= j < |matching| ==> toInt(matching[j].locationId).Some?) &&
            ((forall i :: 0 <= i < |table| ==> !Matches(table[i], date, Lower(period))) ==>
               response.records == [])
  {
    ProjectLength(Select(table, date, Lower(period)), toInt);
    SelectEmptyIff(table, date, Lower(period));
  }

  /** Two requests whose periods differ only in letter case get the same answer. */
  lemma PeriodCaseInsensitive<Id>(table: Table<Id>, date: Option<string>, p1: string, p2: string,
                                  toInt: Id -> Option<int>)
    requires EqualIgnoringCase(p1, p2)
    ensures Busyness(table, date, Some(p1), toInt) == Busyness(table, date, Some(p2), toInt)
  {
    LowerEqualIff(p1, p2);
  }

  /**
    The loader lower-cases the period column, and against such a row the
    exact comparison with the lower-cased input is a case-insensitive
    comparison with the input as given.
  */
  lemma MatchIgnoringCase<Id>(row: Row<Id>, date: string, period: string)
    requires IsLowercase(row.period)
    ensures Matches(row, date, Lower(period)) <==> row.date == date && EqualIgnoringCase(row.period, period)
  {
    LowerFixesLowercase(row.period);
    LowerEqualIff(row.period, period);
  }
}
