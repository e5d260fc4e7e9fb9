/** The row-to-record mapping of the two runtime tables.
    A table row arrives as the sequence of its stripped cell texts; the model
    maps it positionally to a `Runtime` record, with the date cells handed to
    a date parser that is a parameter of the model. */
module RowMapping {
  import opened Wrappers

  /** A stand-in for the date value the parser returns. The model only stores
      and compares these values, so a single opaque payload is enough; it
      claims no calendar fields, precision or time zone. */
  datatype DateTime = DateTime(payload: int)

  /** The natural-language date parser: `None` stands for a parse that raises. */
  type DateParser = string -> Option<DateTime>

  /** The ways processing can abort. `MissingCell(c)` is the index error raised
      by reading column `c` of a row that is too short; `UnparsableDate(t)` is
      the parser rejecting the text `t`. The remaining two belong to populating
      the catalog: a failed page fetch, and a table without a title element. */
  datatype Error =
    | FetchFailed
    | MissingTitle
    | MissingCell(column: nat)
    | UnparsableDate(text: string)

  /** One runtime record, with the six keys every processed row gets. */
  datatype Runtime = Runtime(
    name: string,
    key: string,
    deprecation: Option<DateTime>,
    expiry: Option<DateTime>,
    isExpiring: bool,
    expired: bool)

  /** The two table layouts the catalog knows. */
  datatype TableKind = Current | Expired

  /** The invariant every produced record keeps: expired implies expiring, a
      runtime is expiring exactly when it has a deprecation date, and it is
      expired exactly when it has an expiry date. */
  predicate Consistent(r: Runtime) {
    && (r.expired ==> r.isExpiring)
    && (r.isExpiring <==> r.deprecation.Some?)
    && (r.expired <==> r.expiry.Some?)
  }

  predicate AllConsistent(rs: seq<Runtime>) {
    forall i :: 0 <= i < |rs| ==> Consistent(rs[i])
  }

  lemma AllConsistentConcat(a: seq<Runtime>, b: seq<Runtime>)
    requires AllConsistent(a) && AllConsistent(b)
    ensures AllConsistent(a + b)
  {
    forall i | 0 <= i < |a + b|
      ensures Consistent((a + b)[i])
    {
      if i >= |a| {
        assert (a + b)[i] == b[i - |a|];
      }
    }
  }

  /** Reading column `c` of `row`, which fails as an index error when the row is too short. */
  function Cell(row: seq<string>, c: nat): (r: Result<string, Error>)
    ensures r.Success? <==> c < |row|
    ensures r.Success? ==> r.value == row[c]
    ensures r.Failure? ==> r.error == MissingCell(c)
  {
    if c < |row| then Success(row[c]) else Failure(MissingCell(c))
  }

  /** Parsing a date cell, which fails when the parser rejects the text. */
  function ParseDate(text: string, parse: DateParser): (r: Result<DateTime, Error>)
    ensures r.Success? <==> parse(text).Some?
    ensures r.Success? ==> r.value == parse(text).value
    ensures r.Failure? ==> r.error == UnparsableDate(text)
  {
    match parse(text)
    case Some(d) => Success(d)
    case None => Failure(UnparsableDate(text))
  }

  /** A row of the supported-runtimes table: name in column 0, key in column 1,
      deprecation date in column 5, where only the empty string means "no date". */
  function CurrentRecord(row: seq<string>, parse: DateParser): (r: Result<Runtime, Error>)
    ensures r.Success? <==> |row| >= 6 && (row[5] == "" || parse(row[5]).Some?)
    ensures |row| < 6 ==> r == Failure(MissingCell(if |row| < 2 then |row| else 5))
    ensures |row| >= 6 && r.Failure? ==> r.error == UnparsableDate(row[5])
    ensures r.Success? ==>
      && r.value.name == row[0]
      && r.value.key == row[1]
      && r.value.expiry == None
      && !r.value.expired
      && (r.value.isExpiring <==> row[5] != "")
      && (r.value.deprecation == None <==> row[5] == "")
      && (row[5] != "" ==> r.value.deprecation == parse(row[5]))
  {
    var name :- Cell(row, 0);
    var key :- Cell(row, 1);
    var phase :- Cell(row, 5);
    if phase == "" then
      Success(Runtime(name, key, None, None, false, false))
    else
      var date :- ParseDate(phase, parse);
      Success(Runtime(name, key, Some(date), None, true, false))
  }

  /** A row of the deprecated-runtimes table: name in column 0, key in column 1,
      deprecation date in column 3 and expiry date in column 4. The expiry is
      always parsed; an empty deprecation cell falls back to the expiry date.
      Cells are read in the order the record's entries are written, so a
      non-empty column 3 is parsed before column 4 is read. */
  function ExpiredRecord(row: seq<string>, parse: DateParser): (r: Result<Runtime, Error>)
    ensures r.Success? <==>
      && |row| >= 5
      && parse(row[4]).Some?
      && (row[3] == "" || parse(row[3]).Some?)
    ensures |row| < 4 ==> r == Failure(MissingCell(if |row| < 2 then |row| else 3))
    ensures |row| >= 4 && row[3] != "" && parse(row[3]).None? ==> r == Failure(UnparsableDate(row[3]))
    ensures |row| == 4 && (row[3] == "" || parse(row[3]).Some?) ==> r == Failure(MissingCell(4))
    ensures |row| >= 5 && (row[3] == "" || parse(row[3]).Some?) && parse(row[4]).None? ==>
      r == Failure(UnparsableDate(row[4]))
    ensures r.Success? ==>
      && r.value.name == row[0]
      && r.value.key == row[1]
      && r.value.isExpiring
      && r.value.expired
      && r.value.expiry == parse(row[4])
      && r.value.deprecation == (if row[3] == "" then parse(row[4]) else parse(row[3]))
  {
    var name :- Cell(row, 0);
    var key :- Cell(row, 1);
    var phase1 :- Cell(row, 3);
    var deprecation :-
      if phase1 != "" then ParseDate(phase1, parse)
      else (var phase2 :- Cell(row, 4); ParseDate(phase2, parse));
    var phase2 :- Cell(row, 4);
    var expiry :- ParseDate(phase2, parse);
    Success(Runtime(name, key, Some(deprecation), Some(expiry), true, true))
  }

  /** The record a non-empty row of a table of the given kind maps to. */
  function RowRecord(kind: TableKind, row: seq<string>, parse: DateParser): (r: Result<Runtime, Error>)
    ensures r.Success? ==> Consistent(r.value)
  {
    match kind
    case Current => CurrentRecord(row, parse)
    case Expired => ExpiredRecord(row, parse)
  }

  /** A way of mapping one non-empty row to a record. */
  type RowMap = seq<string> -> Result<Runtime, Error>

  /** The records of a table's rows under `mapRow`: rows without cells are
      skipped, every other row yields one record in row order, and the first
      failing row aborts. */
  function MapRows(rows: seq<seq<string>>, mapRow: RowMap): (r: Result<seq<Runtime>, Error>)
    ensures r.Success? ==> |r.value| <= |rows|
    ensures r.Failure? ==> exists row :: row in rows && row != [] && mapRow(row) == Failure(r.error)
    decreases |rows|
  {
    if rows == [] then Success([])
    else if rows[0] == [] then MapRows(rows[1..], mapRow)
    else
      var record :- mapRow(rows[0]);
      var rest :- MapRows(rows[1..], mapRow);
      Success([record] + rest)
  }

  /** The row mapping of a table of the given kind. */
  function RowMapOf(kind: TableKind, parse: DateParser): RowMap {
    row => RowRecord(kind, row, parse)
  }

  /** The records of a whole table of the given kind. */
  function Records(kind: TableKind, rows: seq<seq<string>>, parse: DateParser): (r: Result<seq<Runtime>, Error>)
    ensures r.Success? ==> |r.value| <= |rows|
    ensures r.Failure? ==> exists row :: row in rows && row != [] && RowRecord(kind, row, parse) == Failure(r.error)
  {
    MapRows(rows, RowMapOf(kind, parse))
  }

  /** The rows that have at least one cell, in their original order. */
  function NonEmptyRows(rows: seq<seq<string>>): (kept: seq<seq<string>>)
    ensures |kept| <= |rows|
    ensures forall row :: row in kept <==> row in rows && row != []
    ensures multiset(kept) == multiset(rows)[[] := 0]
    decreases |rows|
  {
    if rows == [] then []
    else
      assert rows == [rows[0]] + rows[1..];
      if rows[0] == [] then NonEmptyRows(rows[1..])
      else [rows[0]] + NonEmptyRows(rows[1..])
  }

  /** The filter keeps the order of the rows: filtering `a + b` is filtering
      `a`, then filtering `b`. */
  lemma {:induction false} NonEmptyRowsConcat(a: seq<seq<string>>, b: seq<seq<string>>)
    ensures NonEmptyRows(a + b) == NonEmptyRows(a) + NonEmptyRows(b)
    decreases |a|
  {
    if a == [] {
      assert a + b == b;
    } else {
      assert (a + b)[0] == a[0];
      assert (a + b)[1..] == a[1..] + b;
      NonEmptyRowsConcat(a[1..], b);
      if a[0] != [] {
        assert [a[0]] + (NonEmptyRows(a[1..]) + NonEmptyRows(b))
            == ([a[0]] + NonEmptyRows(a[1..])) + NonEmptyRows(b);
      }
    }
  }

  /** `done` followed by the outcome of the rest of a table. */
  function Prepend(done: seq<Runtime>, rest: Result<seq<Runtime>, Error>): Result<seq<Runtime>, Error> {
    match rest
    case Success(v) => Success(done + v)
    case Failure(e) => Failure(e)
  }

  lemma PrependTwice(first: seq<Runtime>, second: seq<Runtime>, rest: Result<seq<Runtime>, Error>)
    ensures Prepend(first, Prepend(second, rest)) == Prepend(first + second, rest)
  {
    if rest.Success? {
      assert first + (second + rest.value) == (first + second) + rest.value;
    }
  }

  /** Every row of `rows` maps to a record. */
  predicate EveryRowMaps(rows: seq<seq<string>>, mapRow: RowMap) {
    forall i :: 0 <= i < |rows| ==> mapRow(rows[i]).Success?
  }

  lemma {:induction false} MapRowsKeepsConsistent(rows: seq<seq<string>>, mapRow: RowMap)
    requires forall row :: mapRow(row).Success? ==> Consistent(mapRow(row).value)
    requires MapRows(rows, mapRow).Success?
    ensures AllConsistent(MapRows(rows, mapRow).value)
    decreases |rows|
  {
    if rows != [] {
      MapRowsKeepsConsistent(rows[1..], mapRow);
    }
  }

  lemma {:induction false} MapRowsSucceedIffRowsMap(rows: seq<seq<string>>, mapRow: RowMap)
    ensures MapRows(rows, mapRow).Success? <==> EveryRowMaps(NonEmptyRows(rows), mapRow)
    decreases |rows|
  {
    if rows != [] {
      MapRowsSucceedIffRowsMap(rows[1..], mapRow);
      var rest := NonEmptyRows(rows[1..]);
      if rows[0] != [] {
        var kept := NonEmptyRows(rows);
        assert kept == [rows[0]] + rest;
        if MapRows(rows, mapRow).Success? {
          assert mapRow(rows[0]).Success? && MapRows(rows[1..], mapRow).Success?;
          forall i | 0 <= i < |kept|
            ensures mapRow(kept[i]).Success?
          {
            if i == 0 {
              assert kept[i] == rows[0];
            } else {
              assert kept[i] == rest[i - 1];
            }
          }
        } else if mapRow(rows[0]).Failure? {
          assert !mapRow(kept[0]).Success?;
        } else {
          assert !EveryRowMaps(rest, mapRow);
          var i :| 0 <= i < |rest| && !mapRow(rest[i]).Success?;
          assert kept[i + 1] == rest[i];
        }
      } else {
        assert NonEmptyRows(rows) == rest;
      }
    }
  }

  lemma {:induction false} MapRowsFollowNonEmptyRows(rows: seq<seq<string>>, mapRow: RowMap)
    requires MapRows(rows, mapRow).Success?
    ensures |MapRows(rows, mapRow).value| == |NonEmptyRows(rows)|
    ensures forall i :: 0 <= i < |NonEmptyRows(rows)| ==>
      mapRow(NonEmptyRows(rows)[i]) == Success(MapRows(rows, mapRow).value[i])
    decreases |rows|
  {
    if rows != [] {
      MapRowsFollowNonEmptyRows(rows[1..], mapRow);
      if rows[0] != [] {
        var kept := NonEmptyRows(rows);
        var rest := NonEmptyRows(rows[1..]);
        var tail := MapRows(rows[1..], mapRow).value;
        var all := MapRows(rows, mapRow).value;
        assert kept == [rows[0]] + rest;
        assert all == [mapRow(rows[0]).value] + tail;
        forall i | 0 <= i < |kept|
          ensures mapRow(kept[i]) == Success(all[i])
        {
          if i > 0 {
            assert kept[i] == rest[i - 1] && all[i] == tail[i - 1];
          }
        }
      }
    }
  }

  lemma {:induction false} MapRowsFailAtFirstBadRow(rows: seq<seq<string>>, mapRow: RowMap)
    requires MapRows(rows, mapRow).Failure?
    ensures exists i ::
      && 0 <= i < |NonEmptyRows(rows)|
      && mapRow(NonEmptyRows(rows)[i]) == Failure(MapRows(rows, mapRow).error)
      && (forall j :: 0 <= j < i ==> mapRow(NonEmptyRows(rows)[j]).Success?)
    decreases |rows|
  {
    var kept := NonEmptyRows(rows);
    if rows[0] == [] {
      MapRowsFailAtFirstBadRow(rows[1..], mapRow);
    } else if mapRow(rows[0]).Failure? {
      assert kept[0] == rows[0];
    } else {
      MapRowsFailAtFirstBadRow(rows[1..], mapRow);
      var rest := NonEmptyRows(rows[1..]);
      assert kept == [rows[0]] + rest;
      var i :| 0 <= i < |rest|
        && mapRow(rest[i]) == Failure(MapRows(rows[1..], mapRow).error)
        && forall j :: 0 <= j < i ==> mapRow(rest[j]).Success?;
      assert kept[i + 1] == rest[i];
      forall j | 0 <= j < i + 1
        ensures mapRow(kept[j]).Success?
      {
        if j > 0 {
          assert kept[j] == rest[j - 1];
        }
      }
    }
  }

  /** Every record of a successfully processed table keeps the flag invariant. */
  lemma RecordsConsistent(kind: TableKind, rows: seq<seq<string>>, parse: DateParser)
    requires Records(kind, rows, parse).Success?
    ensures AllConsistent(Records(kind, rows, parse).value)
  {
    MapRowsKeepsConsistent(rows, RowMapOf(kind, parse));
  }

  /** A table succeeds exactly when every non-empty row maps. */
  lemma RecordsSucceedIffRowsMap(kind: TableKind, rows: seq<seq<string>>, parse: DateParser)
    ensures Records(kind, rows, parse).Success? <==>
      forall i :: 0 <= i < |NonEmptyRows(rows)| ==> RowRecord(kind, NonEmptyRows(rows)[i], parse).Success?
  {
    MapRowsSucceedIffRowsMap(rows, RowMapOf(kind, parse));
  }

  /** A table that succeeds yields one record per non-empty row, in row order. */
  lemma RecordsFollowNonEmptyRows(kind: TableKind, rows: seq<seq<string>>, parse: DateParser)
    requires Records(kind, rows, parse).Success?
    ensures |Records(kind, rows, parse).value| == |NonEmptyRows(rows)|
    ensures forall i :: 0 <= i < |NonEmptyRows(rows)| ==>
      RowRecord(kind, NonEmptyRows(rows)[i], parse) == Success(Records(kind, rows, parse).value[i])
  {
    MapRowsFollowNonEmptyRows(rows, RowMapOf(kind, parse));
  }

  /** A failing table reports the error of its first failing non-empty row. */
  lemma RecordsFailAtFirstBadRow(kind: TableKind, rows: seq<seq<string>>, parse: DateParser)
    requires Records(kind, rows, parse).Failure?
    ensures exists i ::
      && 0 <= i < |NonEmptyRows(rows)|
      && RowRecord(kind, NonEmptyRows(rows)[i], parse) == Failure(Records(kind, rows, parse).error)
      && (forall j :: 0 <= j < i ==> RowRecord(kind, NonEmptyRows(rows)[j], parse).Success?)
  {
    MapRowsFailAtFirstBadRow(rows, RowMapOf(kind, parse));
  }

  /** A five-cell supported-runtimes row has no column 5, so it aborts processing,
      whatever its cells say; and a placeholder such as "Not scheduled" in
      column 5 of a six-cell row is handed to the date parser like any other text. */
  lemma ShortCurrentRowAndPlaceholderText(parse: DateParser)
    ensures CurrentRecord(["Node.js 18", "nodejs18.x", "Amazon Linux 2", "Not scheduled", "N/A"], parse)
      == Failure(MissingCell(5))
    ensures var row := ["Node.js 18", "nodejs18.x", "Amazon Linux 2", "x86_64", "", "Not scheduled"];
      && (CurrentRecord(row, parse).Success? <==> parse("Not scheduled").Some?)
      && (CurrentRecord(row, parse).Success? ==> CurrentRecord(row, parse).value.isExpiring)
  {
  }

  /** A deprecated-runtimes row with both dates keeps them apart; with column 3
      empty, both dates are the column 4 date. */
  lemma ExpiredRowDates(parse: DateParser, d3: DateTime, d4: DateTime)
    requires parse("2023-03-31") == Some(d3) && parse("2023-04-30") == Some(d4)
    ensures ExpiredRecord(["Node.js 12", "nodejs12.x", "Amazon Linux 2", "2023-03-31", "2023-04-30"], parse)
      == Success(Runtime("Node.js 12", "nodejs12.x", Some(d3), Some(d4), true, true))
    ensures ExpiredRecord(["Node.js 12", "nodejs12.x", "Amazon Linux 2", "", "2023-04-30"], parse)
      == Success(Runtime("Node.js 12", "nodejs12.x", Some(d4), Some(d4), true, true))
  {
  }

  /** The supported-runtimes table processor: one pass over the rows, appending
      the record of every row that has cells. */
  method ProcessCurrentRuntimes(rows: seq<seq<string>>, parse: DateParser) returns (r: Result<seq<Runtime>, Error>)
    ensures r == Records(Current, rows, parse)
  {
    var processed: seq<Runtime> := [];
    var i := 0;
    assert rows[0..] == rows;
    assert Prepend([], Records(Current, rows, parse)) == Records(Current, rows, parse) by {
      if Records(Current, rows, parse).Success? {
        assert [] + Records(Current, rows, parse).value == Records(Current, rows, parse).value;
      }
    }
    while i < |rows|
      invariant 0 <= i <= |rows|
      invariant Records(Current, rows, parse) == Prepend(processed, Records(Current, rows[i..], parse))
    {
      var row := rows[i];
      assert rows[i..][0] == row && rows[i..][1..] == rows[i + 1..];
      if row != [] {
        var record := CurrentRecord(row, parse);
        if record.Failure? {
          return Failure(record.error);
        }
        PrependTwice(processed, [record.value], Records(Current, rows[i + 1..], parse));
        processed := processed + [record.value];
      }
      i := i + 1;
    }
    assert rows[i..] == [];
    assert processed + [] == processed;
    return Success(processed);
  }

  /** The deprecated-runtimes table processor: the same pass with the expired layout. */
  method ProcessExpiredRuntimes(rows: seq<seq<string>>, parse: DateParser) returns (r: Result<seq<Runtime>, Error>)
    ensures r == Records(Expired, rows, parse)
  {
    var processed: seq<Runtime> := [];
    var i := 0;
    assert rows[0..] == rows;
    assert Prepend([], Records(Expired, rows, parse)) == Records(Expired, rows, parse) by {
      if Records(Expired, rows, parse).Success? {
        assert [] + Records(Expired, rows, parse).value == Records(Expired, rows, parse).value;
      }
    }
    while i < |rows|
      invariant 0 <= i <= |rows|
      invariant Records(Expired, rows, parse) == Prepend(processed, Records(Expired, rows[i..], parse))
    {
      var row := rows[i];
      assert rows[i..][0] == row && rows[i..][1..] == rows[i + 1..];
      if row != [] {
        var record := ExpiredRecord(row, parse);
        if record.Failure? {
          return Failure(record.error);
        }
        PrependTwice(processed, [record.value], Records(Expired, rows[i + 1..], parse));
        processed := processed + [record.value];
      }
      i := i + 1;
    }
    assert rows[i..] == [];
    assert processed + [] == processed;
    return Success(processed);
  }
}
