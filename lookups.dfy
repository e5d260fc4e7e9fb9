/** The catalog's queries: a linear scan that takes the first record with the
    requested key, with "absent" as an ordinary answer. */
module Lookups {
  import opened Wrappers
  import opened RowMapping

  /** The position of the first record whose key is `key`. */
  function FirstMatch(rs: seq<Runtime>, key: string): (m: Option<nat>)
    ensures m.Some? ==>
      && m.value < |rs|
      && rs[m.value].key == key
      && forall j :: 0 <= j < m.value ==> rs[j].key != key
    ensures m.None? ==> forall i :: 0 <= i < |rs| ==> rs[i].key != key
    decreases |rs|
  {
    if rs == [] then None
    else if rs[0].key == key then Some(0)
    else match FirstMatch(rs[1..], key)
      case None => None
      case Some(k) => Some(k + 1)
  }

  /** The record `get_runtime` answers with. */
  function Lookup(rs: seq<Runtime>, key: string): (r: Option<Runtime>)
    ensures r.None? <==> forall i :: 0 <= i < |rs| ==> rs[i].key != key
    ensures r.Some? ==> r.value in rs && r.value.key == key
    ensures r.Some? ==> exists i ::
      && 0 <= i < |rs|
      && rs[i] == r.value
      && (forall j :: 0 <= j < i ==> rs[j].key != key)
  {
    match FirstMatch(rs, key)
    case None => None
    case Some(k) => Some(rs[k])
  }

  /** The `runtime_is_expiring` entry of that record. */
  function ExpiringFlag(rs: seq<Runtime>, key: string): (f: Option<bool>)
    ensures f.None? <==> forall i :: 0 <= i < |rs| ==> rs[i].key != key
    ensures f.Some? ==> exists i ::
      && 0 <= i < |rs|
      && rs[i].key == key
      && f.value == rs[i].isExpiring
      && (forall j :: 0 <= j < i ==> rs[j].key != key)
  {
    match Lookup(rs, key)
    case None => None
    case Some(r) => Some(r.isExpiring)
  }

  /** The `runtime_expired` entry of that record. */
  function ExpiredFlag(rs: seq<Runtime>, key: string): (f: Option<bool>)
    ensures f.None? <==> forall i :: 0 <= i < |rs| ==> rs[i].key != key
    ensures f.Some? ==> exists i ::
      && 0 <= i < |rs|
      && rs[i].key == key
      && f.value == rs[i].expired
      && (forall j :: 0 <= j < i ==> rs[j].key != key)
  {
    match Lookup(rs, key)
    case None => None
    case Some(r) => Some(r.expired)
  }

  /** Appending records never changes the answer for a key that was already
      present; for a key that was absent, the answer comes from the new records. */
  lemma {:induction false} LookupAfterAppend(rs: seq<Runtime>, more: seq<Runtime>, key: string)
    ensures Lookup(rs + more, key) ==
      if Lookup(rs, key).Some? then Lookup(rs, key) else Lookup(more, key)
    decreases |rs|
  {
    if rs == [] {
      assert rs + more == more;
    } else {
      assert (rs + more)[0] == rs[0];
      assert (rs + more)[1..] == rs[1..] + more;
      LookupAfterAppend(rs[1..], more, key);
    }
  }

  /** A catalog whose records keep the flag invariant never answers "expired"
      for a key it does not also answer "expiring" for. */
  lemma ExpiredAnswerImpliesExpiring(rs: seq<Runtime>, key: string)
    requires AllConsistent(rs)
    ensures ExpiredFlag(rs, key) == Some(true) ==> ExpiringFlag(rs, key) == Some(true)
  {
    if FirstMatch(rs, key).Some? {
      assert Consistent(rs[FirstMatch(rs, key).value]);
    }
  }

  /** In a list whose records keep the invariant, the "expiring" answer says
      whether the record found has a deprecation date, and the "expired"
      answer whether it has an expiry date. */
  lemma FlagAnswersFollowDates(rs: seq<Runtime>, key: string)
    requires AllConsistent(rs)
    ensures ExpiringFlag(rs, key).Some? ==>
      (ExpiringFlag(rs, key).value <==> Lookup(rs, key).value.deprecation.Some?)
    ensures ExpiredFlag(rs, key).Some? ==>
      (ExpiredFlag(rs, key).value <==> Lookup(rs, key).value.expiry.Some?)
  {
    if FirstMatch(rs, key).Some? {
      assert Consistent(rs[FirstMatch(rs, key).value]);
    }
  }
}
