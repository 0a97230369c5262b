/**
 * The record lifecycle of crud.py: creating a shortened URL (with or without a
 * custom alias), counting a click, and the one-way soft delete.
 *
 * Each operation is a method on the database session, proved against a function
 * of the rows before the call; the lemmas below are about those functions.
 */
module Crud {
  import opened Wrappers
  import opened Models
  import opened Queries
  import opened Create

  /** Aliases create_db_url refuses because the service's own routes use them. */
  const Reserved: seq<string> := ["site", "docs"]

  /** The shortest custom alias the endpoint in main.py passes on to create_db_url. */
  const MinCustomLength: nat := 3

  /**
   * What the table looks like whenever crud.py alone has written it: every secret
   * is its row's key followed by three dash-separated sections, and no two active
   * rows share a key.
   */
  ghost predicate Valid(urls: seq<Url>)
  {
    (forall i :: 0 <= i < |urls| ==> IsSecretFor(urls[i].secretKey, urls[i].key)) &&
    (forall i, j :: 0 <= i < j < |urls| && urls[i].isActive && urls[j].isActive ==> urls[i].key != urls[j].key)
  }

  /** The row `after` is a later state of the row `before`. */
  predicate Follows(before: Url, after: Url)
  {
    after.key == before.key && after.secretKey == before.secretKey &&
    after.targetUrl == before.targetUrl &&
    before.clicks <= after.clicks && (after.isActive ==> before.isActive)
  }

  /**
   * The table `after` is a later state of `before`: no row is removed, keys, secrets
   * and targets never change, clicks never decrease, and no row is reactivated.
   */
  ghost predicate Evolves(before: seq<Url>, after: seq<Url>)
  {
    |before| <= |after| && forall i :: 0 <= i < |before| ==> Follows(before[i], after[i])
  }

  /** Under `Valid`, no two active rows share a secret either. */
  lemma ActiveSecretsUnique(urls: seq<Url>, i: nat, j: nat)
    requires Valid(urls)
    requires i < j < |urls| && urls[i].isActive && urls[j].isActive
    ensures urls[i].secretKey != urls[j].secretKey
  {
    if urls[i].secretKey == urls[j].secretKey {
      SecretDeterminesKey(urls[i].secretKey, urls[i].key, urls[j].key);
    }
  }

  /** The alias test of create_db_url: a non-empty alias that is reserved or held by an active row. */
  predicate AliasTaken(urls: seq<Url>, custom: string): (taken: bool)
    ensures taken <==> (custom != "" && (custom == "site" || custom == "docs" ||
      exists i :: 0 <= i < |urls| && urls[i].isActive && urls[i].key == custom))
  {
    custom != "" && (custom in Reserved || GetUrlByKey(urls, custom).Some?)
  }

  /**
   * The key create_db_url settles on: the alias when one is given (no draws spent),
   * otherwise what `Create.key` draws from the start of `rng`.
   */
  function KeyDraw(urls: seq<Url>, custom: string, rng: seq<nat>): (r: Option<Drawn>)
    ensures custom != "" ==> r == Some(Drawn(custom, 0))
    ensures r.Some? && custom == "" ==> IsKey(r.value.value)
    ensures r.Some? && !AliasTaken(urls, custom) ==> GetUrlByKey(urls, r.value.value).None?
  {
    if custom != "" then Some(Drawn(custom, 0)) else FirstFreeKey(urls, rng, 0)
  }

  /**
   * The row create_db_url adds for `target` and `custom` (the empty string standing
   * for an absent alias), drawing from `rng`, or the error it reports.
   */
  function CreateOutcome(urls: seq<Url>, target: string, custom: string, rng: seq<nat>): (r: Result<Url, Error>)
    ensures r == Err(AlreadyExists) <==> AliasTaken(urls, custom)
    ensures r.Ok? ==> r.value.targetUrl == target && r.value.isActive && r.value.clicks == 0
    ensures r.Ok? && custom != "" ==> r.value.key == custom
    ensures r.Ok? && custom == "" ==> IsKey(r.value.key)
    ensures r.Ok? ==> IsSecretFor(r.value.secretKey, r.value.key)
    ensures r.Ok? ==> GetUrlByKey(urls, r.value.key).None? && GetUrlBySecret(urls, r.value.secretKey).None?
    ensures r.Ok? ==> KeyDraw(urls, custom, rng).Some? && r.value.key == KeyDraw(urls, custom, rng).value.value
    ensures r.Ok? ==> var k := KeyDraw(urls, custom, rng).value;
      k.next + SecretDraws <= |rng| &&
      r.value.secretKey == CandidateSecret(k.value, rng[k.next..k.next + SecretDraws])
    ensures r == Err(OutOfEntropy) <==> (!AliasTaken(urls, custom) &&
      (KeyDraw(urls, custom, rng).None? || |rng| < KeyDraw(urls, custom, rng).value.next + SecretDraws))
  {
    if AliasTaken(urls, custom) then Err(AlreadyExists)
    else
      var key := KeyDraw(urls, custom, rng);
      match key
      case None => Err(OutOfEntropy)
      case Some(k) =>
        match SecretOutcome(urls, k.value, rng, k.next)
        case Err(e) => Err(e)
        case Ok(s) => Ok(Url(k.value, s.value, target, true, 0))
  }

  /**
   * `create_db_url(db, url, custom)`: refuse a taken alias, otherwise allocate a key
   * (the alias, or a fresh random one) and a secret, and append the new row.
   */
  method CreateUrl(db: Session, target: string, custom: string, rng: seq<nat>) returns (r: Result<Url, Error>)
    requires custom == "" || |custom| >= MinCustomLength
    modifies db
    ensures r == CreateOutcome(old(db.urls), target, custom, rng)
    ensures db.urls == old(db.urls) + (if r.Ok? then [r.value] else [])
    ensures Evolves(old(db.urls), db.urls)
    ensures Valid(old(db.urls)) ==> Valid(db.urls)
  {
    if custom != "" && (custom in Reserved || GetUrlByKey(db.urls, custom).Some?) {
      return Err(AlreadyExists);
    }
    var key: string;
    var next: nat := 0;
    if custom != "" {
      key := custom;
    } else {
      var drawn := Key(db, rng, 0);
      if drawn.None? {
        return Err(OutOfEntropy);
      }
      key, next := drawn.value.value, drawn.value.next;
    }
    var secret := Secret(db, key, rng, next);
    if secret.Err? {
      return Err(secret.error);
    }
    var row := Url(key, secret.value.value, target, true, 0);
    ghost var before := db.urls;
    db.urls := db.urls + [row];
    CreateKeepsValid(before, target, custom, rng);
    return Ok(row);
  }

  /** A successful creation keeps the table valid. */
  lemma CreateKeepsValid(urls: seq<Url>, target: string, custom: string, rng: seq<nat>)
    ensures var r := CreateOutcome(urls, target, custom, rng);
      r.Ok? && Valid(urls) ==> Valid(urls + [r.value])
  {
    var r := CreateOutcome(urls, target, custom, rng);
    if r.Ok? && Valid(urls) {
      var after := urls + [r.value];
      forall i, j | 0 <= i < j < |after| && after[i].isActive && after[j].isActive
        ensures after[i].key != after[j].key
      {
        if j == |urls| {
          assert after[i] == urls[i];
        }
      }
    }
  }

  /**
   * With the table valid, the first secret candidate is always free, so the faulty
   * retry of `Create.secret` is never reached through create_db_url.
   */
  lemma {:induction false} SecretRetryUnreachable(urls: seq<Url>, target: string, custom: string, rng: seq<nat>)
    requires Valid(urls)
    ensures CreateOutcome(urls, target, custom, rng) != Err(MissingKeyArgument)
  {
    if !AliasTaken(urls, custom) {
      var key := KeyDraw(urls, custom, rng);
      if key.Some? && key.value.next + SecretDraws <= |rng| {
        var k, at := key.value.value, key.value.next;
        var s := CandidateSecret(k, rng[at..at + SecretDraws]);
        assert GetUrlByKey(urls, k).None?;
        var found := GetUrlBySecret(urls, s);
        if found.Some? {
          SecretDeterminesKey(s, k, urls[found.value].key);
          assert false;
        }
      }
    }
  }

  /**
   * On a valid table create_db_url succeeds whenever the alias is free and the draws
   * suffice: the alias or a drawn key, then 30 draws for the secret.
   */
  lemma CreateSucceeds(urls: seq<Url>, target: string, custom: string, rng: seq<nat>)
    requires Valid(urls) && !AliasTaken(urls, custom)
    requires KeyDraw(urls, custom, rng).Some?
    requires KeyDraw(urls, custom, rng).value.next + SecretDraws <= |rng|
    ensures CreateOutcome(urls, target, custom, rng).Ok?
  {
    SecretRetryUnreachable(urls, target, custom, rng);
  }

  /** Once an alias is created, creating it again is refused. */
  lemma AliasTakenAfterCreate(urls: seq<Url>, t1: string, t2: string, custom: string, rng1: seq<nat>, rng2: seq<nat>)
    requires custom != ""
    requires CreateOutcome(urls, t1, custom, rng1).Ok?
    ensures CreateOutcome(urls + [CreateOutcome(urls, t1, custom, rng1).value], t2, custom, rng2) == Err(AlreadyExists)
  {
    var after := urls + [CreateOutcome(urls, t1, custom, rng1).value];
    assert after[|urls|].isActive && after[|urls|].key == custom;
  }

  /** The table after `update_db_clicks` on the row at `i`. */
  function WithClick(urls: seq<Url>, i: nat): (after: seq<Url>)
    requires i < |urls|
    ensures |after| == |urls| && after[i].clicks == urls[i].clicks + 1
    ensures Follows(urls[i], after[i]) && after[i].isActive == urls[i].isActive
    ensures forall j :: 0 <= j < |urls| && j != i ==> after[j] == urls[j]
  {
    urls[i := urls[i].(clicks := urls[i].clicks + 1)]
  }

  /** `update_db_clicks(db, db_url)`: one more click on the row at `i`, and nothing else. */
  method UpdateClicks(db: Session, i: nat) returns (u: Url)
    requires i < |db.urls|
    modifies db
    ensures db.urls == WithClick(old(db.urls), i) && u == db.urls[i]
    ensures Evolves(old(db.urls), db.urls)
    ensures Valid(old(db.urls)) ==> Valid(db.urls)
  {
    ghost var before := db.urls;
    db.urls := db.urls[i := db.urls[i].(clicks := db.urls[i].clicks + 1)];
    u := db.urls[i];
    assert Valid(before) ==> Valid(db.urls) by {
      if Valid(before) {
        forall j, k | 0 <= j < k < |db.urls| && db.urls[j].isActive && db.urls[k].isActive
          ensures db.urls[j].key != db.urls[k].key
        {
          assert before[j].isActive && before[k].isActive;
        }
      }
    }
  }

  /** Counting a click changes the answer of neither query. */
  lemma {:induction false} ClickKeepsLookups(urls: seq<Url>, i: nat, key: string, secret: string)
    requires i < |urls|
    ensures GetUrlByKey(WithClick(urls, i), key) == GetUrlByKey(urls, key)
    ensures GetUrlBySecret(WithClick(urls, i), secret) == GetUrlBySecret(urls, secret)
  {
    var after := WithClick(urls, i);
    SameHitsSameAnswer(after, urls, KeyColumn, key);
    SameHitsSameAnswer(after, urls, SecretColumn, secret);
  }

  /** The table after `deactivate_url(db, secret)`. */
  function Deactivated(urls: seq<Url>, secret: string): (after: seq<Url>)
    ensures |after| == |urls|
    ensures GetUrlBySecret(urls, secret).None? ==> after == urls
    ensures GetUrlBySecret(urls, secret).Some? ==>
      var i := GetUrlBySecret(urls, secret).value;
      !after[i].isActive && Follows(urls[i], after[i]) && after[i].clicks == urls[i].clicks &&
      forall j :: 0 <= j < |urls| && j != i ==> after[j] == urls[j]
  {
    match GetUrlBySecret(urls, secret)
    case None => urls
    case Some(i) => urls[i := urls[i].(isActive := false)]
  }

  /**
   * `deactivate_url(db, secret_key)`: the active row with that secret, if any, is
   * marked inactive and returned.
   */
  method DeactivateUrl(db: Session, secret: string) returns (r: Option<Url>)
    modifies db
    ensures db.urls == Deactivated(old(db.urls), secret)
    ensures r.None? <==> GetUrlBySecret(old(db.urls), secret).None?
    ensures r.Some? ==> r.value == db.urls[GetUrlBySecret(old(db.urls), secret).value]
    ensures Evolves(old(db.urls), db.urls)
    ensures Valid(old(db.urls)) ==> Valid(db.urls)
  {
    var found := GetUrlBySecret(db.urls, secret);
    if found.None? {
      return None;
    }
    var i := found.value;
    db.urls := db.urls[i := db.urls[i].(isActive := false)];
    return Some(db.urls[i]);
  }

  /**
   * On a valid table, after deactivation neither query finds the secret or the key of
   * the deactivated row, so a second deactivation finds nothing and changes nothing.
   */
  lemma {:induction false} DeactivateHides(urls: seq<Url>, secret: string)
    requires Valid(urls)
    ensures var after := Deactivated(urls, secret);
      GetUrlBySecret(after, secret).None? && Deactivated(after, secret) == after && Valid(after)
    ensures GetUrlBySecret(urls, secret).Some? ==>
      GetUrlByKey(Deactivated(urls, secret), urls[GetUrlBySecret(urls, secret).value].key).None?
  {
    var after := Deactivated(urls, secret);
    match GetUrlBySecret(urls, secret)
    case None =>
    case Some(i) =>
      forall j | 0 <= j < |after|
        ensures !(after[j].isActive && after[j].secretKey == secret)
        ensures !(after[j].isActive && after[j].key == urls[i].key)
      {
        if j != i && after[j].isActive {
          if j < i {
            ActiveSecretsUnique(urls, j, i);
          } else {
            ActiveSecretsUnique(urls, i, j);
          }
        }
      }
  }

  /**
   * Lookups see only active rows, so after a deactivation the alias check of
   * create_db_url passes for the old row's key, and creating that alias yields a row
   * with the same key.
   */
  lemma DeactivatedAliasReusable(urls: seq<Url>, secret: string, target: string, rng: seq<nat>)
    requires Valid(urls)
    requires GetUrlBySecret(urls, secret).Some?
    requires urls[GetUrlBySecret(urls, secret).value].key !in Reserved
    requires |urls[GetUrlBySecret(urls, secret).value].key| >= MinCustomLength
    requires |rng| >= SecretDraws
    ensures var old_key := urls[GetUrlBySecret(urls, secret).value].key;
      var after := Deactivated(urls, secret);
      CreateOutcome(after, target, old_key, rng).Ok? &&
      CreateOutcome(after, target, old_key, rng).value.key == old_key
  {
    var i := GetUrlBySecret(urls, secret).value;
    var after := Deactivated(urls, secret);
    DeactivateHides(urls, secret);
    SecretRetryUnreachable(after, target, urls[i].key, rng);
  }
}
