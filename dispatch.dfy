/** Title dispatch: the page's tables are walked in document order, and each
    table whose title is one of the two known titles contributes the records
    of its rows. */
module Dispatch {
  import opened Wrappers
  import opened RowMapping

  const ExpiredRuntimesTitle := "Deprecated runtimes"
  const CurrentRuntimesTitle := "Supported Runtimes"

  /** A table as the page presents it: the text of its title element, if it
      has one, and the stripped cell texts of each of its rows. */
  datatype Table = Table(title: Option<string>, rows: seq<seq<string>>)

  /** What walking a run of tables yields: the records appended, in order,
      and the error that stopped the walk, if any. */
  datatype Populated = Populated(records: seq<Runtime>, error: Option<Error>)

  /** Exact, case-sensitive title matching. */
  function KindOfTitle(title: string): (k: Option<TableKind>)
    ensures k == Some(Current) <==> title == CurrentRuntimesTitle
    ensures k == Some(Expired) <==> title == ExpiredRuntimesTitle
  {
    if title == CurrentRuntimesTitle then Some(Current)
    else if title == ExpiredRuntimesTitle then Some(Expired)
    else None
  }

  /** What one table contributes. A table is processed in full before any of
      its records are appended, so a failing table contributes no record. */
  function TableOutcome(t: Table, parse: DateParser): (p: Populated)
    ensures p.error.Some? ==> p.records == []
    ensures t.title.None? ==> p == Populated([], Some(MissingTitle))
    ensures t.title.Some? && t.title.value != CurrentRuntimesTitle && t.title.value != ExpiredRuntimesTitle ==>
      p == Populated([], None)
  {
    match t.title
    case None => Populated([], Some(MissingTitle))
    case Some(title) =>
      match KindOfTitle(title)
      case None => Populated([], None)
      case Some(kind) =>
        match Records(kind, t.rows, parse)
        case Success(recs) => Populated(recs, None)
        case Failure(e) => Populated([], Some(e))
  }

  /** The two known titles select the two layouts, by exact comparison. */
  lemma TableOutcomeByTitle(t: Table, parse: DateParser)
    ensures t.title == Some(CurrentRuntimesTitle) ==>
      (match Records(Current, t.rows, parse)
       case Success(recs) => TableOutcome(t, parse) == Populated(recs, None)
       case Failure(e) => TableOutcome(t, parse) == Populated([], Some(e)))
    ensures t.title == Some(ExpiredRuntimesTitle) ==>
      (match Records(Expired, t.rows, parse)
       case Success(recs) => TableOutcome(t, parse) == Populated(recs, None)
       case Failure(e) => TableOutcome(t, parse) == Populated([], Some(e)))
  {
  }

  /** `done` followed by what the rest of the walk yields. */
  function Join(done: seq<Runtime>, rest: Populated): Populated {
    Populated(done + rest.records, rest.error)
  }

  /** The walk over the tables in document order, given what each table
      contributes; the first error stops it. */
  function Walk(tables: seq<Table>, contribute: Table -> Populated): Populated
    decreases |tables|
  {
    if tables == [] then Populated([], None)
    else
      var first := contribute(tables[0]);
      if first.error.Some? then first
      else Join(first.records, Walk(tables[1..], contribute))
  }

  /** What each table contributes to populating the catalog. */
  function Contribution(parse: DateParser): Table -> Populated {
    t => TableOutcome(t, parse)
  }

  /** The walk the catalog performs over a page's tables. */
  function Dispatched(tables: seq<Table>, parse: DateParser): Populated {
    Walk(tables, Contribution(parse))
  }

  /** The walk ends without error exactly when no table reports one, and an
      error it ends with is the error of one of the tables. */
  lemma {:induction false} WalkError(tables: seq<Table>, contribute: Table -> Populated)
    ensures Walk(tables, contribute).error.None? <==>
      forall i :: 0 <= i < |tables| ==> contribute(tables[i]).error.None?
    ensures Walk(tables, contribute).error.Some? ==>
      exists i :: 0 <= i < |tables| && contribute(tables[i]).error == Walk(tables, contribute).error
    decreases |tables|
  {
    if tables != [] {
      WalkError(tables[1..], contribute);
      if contribute(tables[0]).error.None? {
        if Walk(tables, contribute).error.Some? {
          var i :| 0 <= i < |tables[1..]| && contribute(tables[1..][i]).error == Walk(tables, contribute).error;
          assert tables[1..][i] == tables[i + 1];
        } else {
          forall i | 0 <= i < |tables|
            ensures contribute(tables[i]).error.None?
          {
            if i > 0 {
              assert tables[i] == tables[1..][i - 1];
            }
          }
        }
      }
    }
  }

  /** Populating ends without error exactly when no table's processing fails,
      and an error it reports is the error of one of the tables. */
  lemma DispatchedError(tables: seq<Table>, parse: DateParser)
    ensures Dispatched(tables, parse).error.None? <==>
      forall i :: 0 <= i < |tables| ==> TableOutcome(tables[i], parse).error.None?
    ensures Dispatched(tables, parse).error.Some? ==>
      exists i :: 0 <= i < |tables| && TableOutcome(tables[i], parse).error == Dispatched(tables, parse).error
  {
    WalkError(tables, Contribution(parse));
  }

  /** Walking `a + b` is walking `a`, then, unless `a` failed, walking `b` after it. */
  lemma {:induction false} WalkConcat(a: seq<Table>, b: seq<Table>, contribute: Table -> Populated)
    ensures Walk(a + b, contribute) ==
      if Walk(a, contribute).error.Some? then Walk(a, contribute)
      else Join(Walk(a, contribute).records, Walk(b, contribute))
    decreases |a|
  {
    if a == [] {
      assert a + b == b;
      assert [] + Walk(b, contribute).records == Walk(b, contribute).records;
    } else {
      assert (a + b)[0] == a[0];
      assert (a + b)[1..] == a[1..] + b;
      WalkConcat(a[1..], b, contribute);
      var first := contribute(a[0]);
      if first.error.None? {
        var rest := Walk(a[1..], contribute);
        if rest.error.None? {
          assert first.records + (rest.records + Walk(b, contribute).records)
              == (first.records + rest.records) + Walk(b, contribute).records;
        }
      }
    }
  }

  lemma SplitAt<T>(s: seq<T>, i: nat)
    requires i < |s|
    ensures s[..i + 1] == s[..i] + [s[i]]
    ensures s == s[..i + 1] + s[i + 1..]
  {
  }

  /** One step of the walk: with the tables before position `i` done without
      error, table `i` either stops the whole walk with its error, or appends
      its records after everything before it. */
  lemma WalkStep(tables: seq<Table>, i: nat, done: seq<Runtime>, contribute: Table -> Populated)
    requires i < |tables|
    requires Walk(tables[..i], contribute) == Populated(done, None)
    ensures contribute(tables[i]).error.Some? ==>
      Walk(tables, contribute) == Populated(done + contribute(tables[i]).records, contribute(tables[i]).error)
    ensures contribute(tables[i]).error.None? ==>
      Walk(tables[..i + 1], contribute) == Populated(done + contribute(tables[i]).records, None)
  {
    var t := tables[i];
    SplitAt(tables, i);
    WalkConcat(tables[..i], [t], contribute);
    assert [t][1..] == [];
    if contribute(t).error.Some? {
      WalkConcat(tables[..i + 1], tables[i + 1..], contribute);
    } else {
      assert contribute(t).records + [] == contribute(t).records;
    }
  }

  /** Every record the walk appends keeps the flag invariant, when every
      table's contribution does. */
  lemma {:induction false} WalkConsistent(tables: seq<Table>, contribute: Table -> Populated)
    requires forall t :: AllConsistent(contribute(t).records)
    ensures AllConsistent(Walk(tables, contribute).records)
    decreases |tables|
  {
    if tables != [] {
      WalkConsistent(tables[1..], contribute);
      var first := contribute(tables[0]);
      if first.error.None? {
        AllConsistentConcat(first.records, Walk(tables[1..], contribute).records);
      }
    }
  }

  /** A table with a title that is neither known title. */
  predicate Unknown(t: Table) {
    t.title.Some? && KindOfTitle(t.title.value).None?
  }

  /** The tables of a document without the ones of unknown title. */
  function KnownTables(tables: seq<Table>): (known: seq<Table>)
    ensures |known| <= |tables|
    ensures forall t :: t in known <==> t in tables && !Unknown(t)
    ensures forall t :: multiset(known)[t] == if Unknown(t) then 0 else multiset(tables)[t]
    decreases |tables|
  {
    if tables == [] then []
    else
      assert tables == [tables[0]] + tables[1..];
      if Unknown(tables[0]) then KnownTables(tables[1..])
      else [tables[0]] + KnownTables(tables[1..])
  }

  /** The filter keeps document order: filtering `a + b` is filtering `a`,
      then filtering `b`. */
  lemma {:induction false} KnownTablesConcat(a: seq<Table>, b: seq<Table>)
    ensures KnownTables(a + b) == KnownTables(a) + KnownTables(b)
    decreases |a|
  {
    if a == [] {
      assert a + b == b;
    } else {
      assert (a + b)[0] == a[0];
      assert (a + b)[1..] == a[1..] + b;
      KnownTablesConcat(a[1..], b);
      if !Unknown(a[0]) {
        assert [a[0]] + (KnownTables(a[1..]) + KnownTables(b))
            == ([a[0]] + KnownTables(a[1..])) + KnownTables(b);
      }
    }
  }

  /** Tables that contribute nothing and stop nothing can be removed from the
      document without changing the walk. */
  lemma {:induction false} WalkIgnoresUnknownTables(tables: seq<Table>, contribute: Table -> Populated)
    requires forall t :: Unknown(t) ==> contribute(t) == Populated([], None)
    ensures Walk(KnownTables(tables), contribute) == Walk(tables, contribute)
    decreases |tables|
  {
    if tables != [] {
      WalkIgnoresUnknownTables(tables[1..], contribute);
      var rest := Walk(tables[1..], contribute);
      if Unknown(tables[0]) {
        assert [] + rest.records == rest.records;
      } else {
        var known := KnownTables(tables);
        assert known[0] == tables[0] && known[1..] == KnownTables(tables[1..]);
      }
    }
  }

  /** Every record a table contributes keeps the flag invariant. */
  lemma TableOutcomeConsistent(t: Table, parse: DateParser)
    ensures AllConsistent(TableOutcome(t, parse).records)
  {
    if t.title.Some? && KindOfTitle(t.title.value).Some? {
      var kind := KindOfTitle(t.title.value).value;
      if Records(kind, t.rows, parse).Success? {
        RecordsConsistent(kind, t.rows, parse);
      }
    }
  }

  /** Every record the catalog's walk appends keeps the flag invariant. */
  lemma DispatchedConsistent(tables: seq<Table>, parse: DateParser)
    ensures AllConsistent(Dispatched(tables, parse).records)
  {
    forall t ensures AllConsistent(Contribution(parse)(t).records) {
      TableOutcomeConsistent(t, parse);
    }
    WalkConsistent(tables, Contribution(parse));
  }

  /** Tables of any other title append nothing and stop nothing: removing them
      from the page does not change what populating yields. */
  lemma DispatchedIgnoresUnknownTables(tables: seq<Table>, parse: DateParser)
    ensures Dispatched(KnownTables(tables), parse) == Dispatched(tables, parse)
  {
    WalkIgnoresUnknownTables(tables, Contribution(parse));
  }

  /** Populating from the tables of `a` followed by those of `b`: the records of
      `a`, then, unless `a` failed, those of `b`. */
  lemma DispatchedConcat(a: seq<Table>, b: seq<Table>, parse: DateParser)
    ensures Dispatched(a + b, parse) ==
      if Dispatched(a, parse).error.Some? then Dispatched(a, parse)
      else Join(Dispatched(a, parse).records, Dispatched(b, parse))
  {
    WalkConcat(a, b, Contribution(parse));
  }
}
