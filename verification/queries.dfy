/**
 * The two store queries of crud.py: `filter(column == value, is_active).first()`.
 * A query answers with the position of the first matching row in insertion order
 * (`.first()` without `order_by` leaves the order to the database; the model fixes it).
 */
module Queries {
  import opened Wrappers
  import opened Models

  datatype Column = KeyColumn | SecretColumn

  function Field(u: Url, c: Column): string
  {
    match c
    case KeyColumn => u.key
    case SecretColumn => u.secretKey
  }

  /** The row passes the query's filter: the column equals `v` and the row is active. */
  predicate Hit(u: Url, c: Column, v: string)
  {
    u.isActive && Field(u, c) == v
  }

  /** The first row that passes the filter, or None when no row does. */
  function FirstActive(urls: seq<Url>, c: Column, v: string): (r: Option<nat>)
    ensures r.Some? ==> r.value < |urls| && Hit(urls[r.value], c, v)
    ensures r.Some? ==> forall j :: 0 <= j < r.value ==> !Hit(urls[j], c, v)
    ensures r.None? <==> forall j :: 0 <= j < |urls| ==> !Hit(urls[j], c, v)
  {
    if |urls| == 0 then None
    else if Hit(urls[0], c, v) then Some(0)
    else
      match FirstActive(urls[1..], c, v)
      case None => None
      case Some(i) => Some(i + 1)
  }

  /** Two tables on which the filter selects the same positions give the same answer. */
  lemma {:induction false} SameHitsSameAnswer(a: seq<Url>, b: seq<Url>, c: Column, v: string)
    requires |a| == |b|
    requires forall j :: 0 <= j < |a| ==> (Hit(a[j], c, v) <==> Hit(b[j], c, v))
    ensures FirstActive(a, c, v) == FirstActive(b, c, v)
  {
  }

  /** `get_db_url_by_key`: the first active row whose key is `key`. */
  function GetUrlByKey(urls: seq<Url>, key: string): (r: Option<nat>)
    ensures r.Some? ==> r.value < |urls| && urls[r.value].key == key && urls[r.value].isActive
    ensures r.Some? ==> forall j :: 0 <= j < r.value ==> !(urls[j].isActive && urls[j].key == key)
    ensures r.None? <==> forall j :: 0 <= j < |urls| ==> !(urls[j].isActive && urls[j].key == key)
  {
    FirstActive(urls, KeyColumn, key)
  }

  /** `get_db_url_by_secret`: the first active row whose secret key is `secret`. */
  function GetUrlBySecret(urls: seq<Url>, secret: string): (r: Option<nat>)
    ensures r.Some? ==> r.value < |urls| && urls[r.value].secretKey == secret && urls[r.value].isActive
    ensures r.Some? ==> forall j :: 0 <= j < r.value ==> !(urls[j].isActive && urls[j].secretKey == secret)
    ensures r.None? <==> forall j :: 0 <= j < |urls| ==> !(urls[j].isActive && urls[j].secretKey == secret)
  {
    FirstActive(urls, SecretColumn, secret)
  }
}
