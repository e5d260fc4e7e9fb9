/** The runtime catalog object: its configuration, the list of runtime records
    that populating appends to, and the three queries over that list. */
module Catalog {
  import opened Wrappers
  import opened RowMapping
  import opened Dispatch
  import opened Lookups

  const DefaultDocsUrl := "https://docs.aws.amazon.com/lambda/latest/dg/lambda-runtimes.html"

  /** Fetching and parsing the documentation page at a URL, with or without
      TLS certificate validation; `None` stands for a failed request. */
  type Fetcher = (string, bool) -> Option<seq<Table>>

  class LambdaRuntimes {
    var validateSsl: bool
    var docsUrl: string
    /** Grows by appending only: no operation removes or rewrites an entry. */
    var runtimes: seq<Runtime>

    ghost predicate Valid()
      reads this
    {
      AllConsistent(runtimes)
    }

    /** The configuration part of construction: an absent URL means the default one. */
    constructor (validateSsl: bool := true, docsUrl: Option<string> := None)
      ensures Valid()
      ensures this.validateSsl == validateSsl
      ensures this.docsUrl == (if docsUrl.Some? then docsUrl.value else DefaultDocsUrl)
      ensures runtimes == []
    {
      this.validateSsl := validateSsl;
      this.docsUrl := if docsUrl.Some? then docsUrl.value else DefaultDocsUrl;
      runtimes := [];
    }

    /** Fetch the page and walk its tables in document order, appending the
        records of each table of known title. On an error the records of the
        tables before the failing one stay appended. */
    method Populate(fetch: Fetcher, parse: DateParser) returns (error: Option<Error>)
      requires Valid()
      modifies this`runtimes
      ensures Valid()
      ensures var page := fetch(docsUrl, validateSsl);
        if page.None? then runtimes == old(runtimes) && error == Some(FetchFailed)
        else
          && runtimes == old(runtimes) + Dispatched(page.value, parse).records
          && error == Dispatched(page.value, parse).error
      ensures forall key :: Lookup(old(runtimes), key).Some? ==> Lookup(runtimes, key) == Lookup(old(runtimes), key)
    {
      var page := fetch(docsUrl, validateSsl);
      if page.None? {
        return Some(FetchFailed);
      }
      ghost var before := runtimes;
      error := AppendTables(page.value, parse);
      LookupsSurvive(before, Dispatched(page.value, parse).records);
    }

    /** The title-dispatch loop: each table is processed in full and its
        records appended before the next table is looked at; the first error
        stops the loop. */
    method AppendTables(tables: seq<Table>, parse: DateParser) returns (error: Option<Error>)
      requires Valid()
      modifies this`runtimes
      ensures Valid()
      ensures runtimes == old(runtimes) + Dispatched(tables, parse).records
      ensures error == Dispatched(tables, parse).error
    {
      error := None;
      ghost var contribute := Contribution(parse);
      ghost var before := runtimes;
      ghost var added: seq<Runtime> := [];
      var i := 0;
      while i < |tables|
        invariant 0 <= i <= |tables|
        invariant runtimes == before + added
        invariant Walk(tables[..i], contribute) == Populated(added, None)
        invariant AllConsistent(added)
      {
        var outcome := ProcessTable(tables[i], parse);
        WalkStep(tables, i, added, contribute);
        if outcome.error.Some? {
          assert added + outcome.records == added;
          error := outcome.error;
          break;
        }
        AllConsistentConcat(added, outcome.records);
        runtimes := runtimes + outcome.records;
        added := added + outcome.records;
        i := i + 1;
      }
      if error.None? {
        assert tables[..i] == tables;
      }
      AllConsistentConcat(before, added);
    }

    /** `get_runtime`: the first record with the key, or `None`. */
    method GetRuntime(key: string) returns (r: Option<Runtime>)
      ensures r == Lookup(runtimes, key)
      ensures r.None? <==> forall i :: 0 <= i < |runtimes| ==> runtimes[i].key != key
      ensures r.Some? ==> exists i ::
        && 0 <= i < |runtimes|
        && runtimes[i] == r.value
        && r.value.key == key
        && (forall j :: 0 <= j < i ==> runtimes[j].key != key)
    {
      var i := 0;
      while i < |runtimes|
        invariant 0 <= i <= |runtimes|
        invariant forall j :: 0 <= j < i ==> runtimes[j].key != key
      {
        if runtimes[i].key == key {
          return Some(runtimes[i]);
        }
        i := i + 1;
      }
      return None;
    }

    /** `runtime_is_expiring`: the expiring flag of the first record with the key, or `None`. */
    method RuntimeIsExpiring(key: string) returns (r: Option<bool>)
      requires Valid()
      ensures r == ExpiringFlag(runtimes, key)
      ensures r.Some? ==> (r.value <==> Lookup(runtimes, key).value.deprecation.Some?)
      ensures r.None? <==> forall i :: 0 <= i < |runtimes| ==> runtimes[i].key != key
    {
      FlagAnswersFollowDates(runtimes, key);
      var i := 0;
      while i < |runtimes|
        invariant 0 <= i <= |runtimes|
        invariant forall j :: 0 <= j < i ==> runtimes[j].key != key
      {
        if runtimes[i].key == key {
          return Some(runtimes[i].isExpiring);
        }
        i := i + 1;
      }
      return None;
    }

    /** `runtime_is_expired`: the expired flag of the first record with the key, or `None`. */
    method RuntimeIsExpired(key: string) returns (r: Option<bool>)
      requires Valid()
      ensures r == ExpiredFlag(runtimes, key)
      ensures r == Some(true) ==> ExpiringFlag(runtimes, key) == Some(true)
      ensures r.Some? ==> (r.value <==> Lookup(runtimes, key).value.expiry.Some?)
      ensures r.None? <==> forall i :: 0 <= i < |runtimes| ==> runtimes[i].key != key
    {
      FlagAnswersFollowDates(runtimes, key);
      ExpiredAnswerImpliesExpiring(runtimes, key);
      var i := 0;
      while i < |runtimes|
        invariant 0 <= i <= |runtimes|
        invariant forall j :: 0 <= j < i ==> runtimes[j].key != key
      {
        if runtimes[i].key == key {
          return Some(runtimes[i].expired);
        }
        i := i + 1;
      }
      return None;
    }
  }

  /** One table, dispatched on its exact title: the records of a known table,
      nothing for a table of any other title, an error for a table without one. */
  method ProcessTable(t: Table, parse: DateParser) returns (p: Populated)
    ensures p == Contribution(parse)(t)
    ensures AllConsistent(p.records)
  {
    TableOutcomeConsistent(t, parse);
    match t.title {
      case None =>
        return Populated([], Some(MissingTitle));
      case Some(title) =>
        var outcome: Result<seq<Runtime>, Error>;
        if title == CurrentRuntimesTitle {
          outcome := ProcessCurrentRuntimes(t.rows, parse);
        } else if title == ExpiredRuntimesTitle {
          outcome := ProcessExpiredRuntimes(t.rows, parse);
        } else {
          return Populated([], None);
        }
        match outcome {
          case Success(recs) => return Populated(recs, None);
          case Failure(e) => return Populated([], Some(e));
        }
    }
  }

  /** Every key already answered keeps its answer after more records are appended. */
  lemma LookupsSurvive(rs: seq<Runtime>, more: seq<Runtime>)
    ensures forall key :: Lookup(rs, key).Some? ==> Lookup(rs + more, key) == Lookup(rs, key)
  {
    forall key | Lookup(rs, key).Some?
      ensures Lookup(rs + more, key) == Lookup(rs, key)
    {
      LookupAfterAppend(rs, more, key);
    }
  }
}
