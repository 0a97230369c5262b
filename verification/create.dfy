/**
 * The `Create` class of crud.py: random candidate keys and secrets, and the
 * retry-until-free loops that turn candidates into identifiers.
 *
 * Randomness is a stream of draws `rng`. The draw `d` makes `secrets.choice(alphabet)`
 * answer `alphabet[d % |alphabet|]`, and every loop consumes the stream from a
 * position `pos` onwards. A stream that runs out before the loop ends stands for
 * a run the draws given do not cover, and yields `OutOfEntropy`.
 */
module Create {
  import opened Wrappers
  import opened Models
  import opened Queries

  /** `Create.chars`, the alphabet of a key. */
  const Chars: string := "ABCDEFGHIJKLMNOPQRSTUVWXYZ0123456789"

  /**
   * `chars + chars.lower()`, the alphabet of a secret section: 72 positions, in which
   * each digit appears twice, over the 62 distinct characters A-Z, 0-9, a-z.
   */
  const SecretChars: string := Chars + Lower(Chars)

  const KeyLength: nat := 6
  const SectionLength: nat := 10
  /** Draws consumed by one secret candidate: three sections. */
  const SecretDraws: nat := 3 * SectionLength
  /** Characters a secret adds after its key: three times a dash and a section. */
  const SecretTail: nat := 3 * (1 + SectionLength)

  /**
   * The ways a creation fails. `AlreadyExists` is the "Custom URL already exists"
   * value of create_db_url; `MissingKeyArgument` is the TypeError raised by the
   * second call to `_secret`, which omits `key`; `OutOfEntropy` says the draws
   * given ran out before a retry loop finished.
   */
  datatype Error = AlreadyExists | MissingKeyArgument | OutOfEntropy

  /** An identifier and the stream position after the draws spent on it. */
  datatype Drawn = Drawn(value: string, next: nat)

  /** Python's `str.lower` on one ASCII character: upper-case letters map to lower case. */
  function LowerChar(c: char): (l: char)
    ensures 'A' <= c <= 'Z' ==> 'a' <= l <= 'z' && l as int - 'a' as int == c as int - 'A' as int
    ensures !('A' <= c <= 'Z') ==> l == c
  {
    if 'A' <= c <= 'Z' then (c as int + 32) as char else c
  }

  /** Python's `str.lower` on ASCII text, character by character. */
  function Lower(s: string): (t: string)
    ensures |t| == |s|
    ensures forall i :: 0 <= i < |s| ==> t[i] == LowerChar(s[i])
  {
    seq(|s|, i requires 0 <= i < |s| => LowerChar(s[i]))
  }

  /**
   * `secrets.choice(alphabet)` answering with the draw `d`; a draw below the
   * alphabet's size picks the character at that position.
   */
  function Choice(alphabet: string, d: nat): (c: char)
    requires |alphabet| > 0
    ensures d < |alphabet| ==> c == alphabet[d]
  {
    alphabet[d % |alphabet|]
  }

  /** Every draw makes `secrets.choice` answer a character of the alphabet. */
  lemma ChoiceIn(alphabet: string, d: nat)
    requires |alphabet| > 0
    ensures Choice(alphabet, d) in alphabet
  {
  }

  /** `"".join(secrets.choice(alphabet) for _ in range(|d|))`, one draw per character. */
  function Choices(alphabet: string, d: seq<nat>): (s: string)
    requires |alphabet| > 0
    ensures |s| == |d|
  {
    seq(|d|, i requires 0 <= i < |d| => Choice(alphabet, d[i]))
  }

  /** Every character of a joined run of choices is a character of the alphabet. */
  lemma ChoicesIn(alphabet: string, d: seq<nat>)
    requires |alphabet| > 0
    ensures forall i :: 0 <= i < |d| ==> Choices(alphabet, d)[i] in alphabet
  {
    forall i | 0 <= i < |d|
      ensures Choices(alphabet, d)[i] in alphabet
    {
      ChoiceIn(alphabet, d[i]);
    }
  }

  /** An upper-case ASCII letter or a digit. */
  predicate IsKeyChar(c: char)
  {
    'A' <= c <= 'Z' || '0' <= c <= '9'
  }

  /** An ASCII letter of either case or a digit. */
  predicate IsAsciiAlnum(c: char)
  {
    'A' <= c <= 'Z' || 'a' <= c <= 'z' || '0' <= c <= '9'
  }

  lemma CharsAt(i: int)
    requires 0 <= i < |Chars|
    ensures |Chars| == 36
    ensures Chars[i] == if i < 26 then ('A' as int + i) as char else ('0' as int + i - 26) as char
  {
  }

  lemma SecretCharsAt(i: int)
    requires 0 <= i < |SecretChars|
    ensures |SecretChars| == 2 * |Chars|
    ensures SecretChars[i] == if i < |Chars| then Chars[i] else LowerChar(Chars[i - |Chars|])
  {
    var lower := Lower(Chars);
    assert SecretChars == Chars + lower;
    if i >= |Chars| {
      assert SecretChars[i] == lower[i - |Chars|];
    }
  }

  /** Every character of `Chars` is an upper-case letter or a digit. */
  lemma KeyAlphabet(i: nat)
    requires i < |Chars|
    ensures IsKeyChar(Chars[i])
  {
    CharsAt(i);
  }

  /** Every upper-case letter and digit is in `Chars`, at this position. */
  function KeyCharIndex(c: char): (i: nat)
    requires IsKeyChar(c)
    ensures i < |Chars| && Chars[i] == c
  {
    var i := if c <= '9' then 26 + (c as int - '0' as int) else c as int - 'A' as int;
    CharsAt(i);
    i
  }

  /** Every character of `SecretChars` is an ASCII letter or digit. */
  lemma SecretAlphabet(i: nat)
    requires i < |SecretChars|
    ensures IsAsciiAlnum(SecretChars[i])
  {
    SecretCharsAt(i);
    if i < |Chars| {
      CharsAt(i);
    } else {
      CharsAt(i - |Chars|);
    }
  }

  /** The lower-case letters sit right after the 36 upper-case entries. */
  lemma SecretLowerAt(j: int)
    requires 0 <= j < 26
    ensures 36 + j < |SecretChars| && SecretChars[36 + j] == ('a' as int + j) as char
  {
    CharsAt(j);
    SecretCharsAt(36 + j);
  }

  /** Every ASCII letter and digit is in `SecretChars`, at this position. */
  function SecretCharIndex(c: char): (i: nat)
    requires IsAsciiAlnum(c)
    ensures i < |SecretChars| && SecretChars[i] == c
  {
    if 'a' <= c <= 'z' then
      var j := c as int - 'a' as int;
      SecretLowerAt(j);
      36 + j
    else
      var j := KeyCharIndex(c);
      SecretCharsAt(j);
      j
  }

  /** A string `Create._key` can return: six characters of `Chars`. */
  predicate IsKey(k: string)
  {
    |k| == KeyLength && forall i :: 0 <= i < |k| ==> IsKeyChar(k[i])
  }

  /** `Create._key`: six characters chosen from `Chars`. */
  function CandidateKey(d: seq<nat>): (k: string)
    requires |d| == KeyLength
    ensures IsKey(k)
  {
    var k := Choices(Chars, d);
    forall i | 0 <= i < |k|
      ensures IsKeyChar(k[i])
    {
      CharsAt(0);
      KeyAlphabet(d[i] % |Chars|);
    }
    k
  }

  /** Every key-shaped string is the candidate of some draws: `_key` can produce each of them. */
  lemma KeyReachable(k: string)
    requires IsKey(k)
    ensures exists d :: |d| == KeyLength && CandidateKey(d) == k
  {
    var d := seq(KeyLength, i requires 0 <= i < KeyLength => KeyCharIndex(k[i]));
    assert forall i :: 0 <= i < KeyLength ==> CandidateKey(d)[i] == k[i];
    assert CandidateKey(d) == k;
  }

  /** A string `Create._section_of_secret` can return: ten ASCII letters or digits. */
  predicate IsSection(s: string)
  {
    |s| == SectionLength && forall i :: 0 <= i < |s| ==> IsAsciiAlnum(s[i])
  }

  /** `Create._section_of_secret`: ten characters chosen from `SecretChars`. */
  function SecretSection(d: seq<nat>): (s: string)
    requires |d| == SectionLength
    ensures IsSection(s)
  {
    var s := Choices(SecretChars, d);
    forall i | 0 <= i < |s|
      ensures IsAsciiAlnum(s[i])
    {
      SecretCharsAt(0);
      SecretAlphabet(d[i] % |SecretChars|);
    }
    s
  }

  /** The draws that make `SecretSection` answer the section `s`. */
  function SectionDraws(s: string): (d: seq<nat>)
    requires IsSection(s)
    ensures |d| == SectionLength && SecretSection(d) == s
  {
    var d := seq(SectionLength, i requires 0 <= i < SectionLength => SecretCharIndex(s[i]));
    assert forall i :: 0 <= i < SectionLength ==> SecretSection(d)[i] == s[i];
    assert SecretSection(d) == s;
    d
  }

  /**
   * `s` is a secret of the key `key`: the key, then three times a dash and a section.
   */
  predicate IsSecretFor(s: string, key: string)
  {
    var n := |key|;
    |s| == n + SecretTail &&
    s[..n] == key && s[n] == '-' &&
    IsSection(s[n + 1..n + 11]) && s[n + 11] == '-' &&
    IsSection(s[n + 12..n + 22]) && s[n + 22] == '-' &&
    IsSection(s[n + 23..])
  }

  /** `Create._secret(key)`: the key followed by three dash-separated sections, drawn in order. */
  function CandidateSecret(key: string, d: seq<nat>): (s: string)
    requires |d| == SecretDraws
    ensures IsSecretFor(s, key)
  {
    var a, b, c := SecretSection(d[..10]), SecretSection(d[10..20]), SecretSection(d[20..]);
    var s := key + "-" + a + "-" + b + "-" + c;
    var n := |key|;
    assert s[..n] == key;
    assert s[n + 1..n + 11] == a;
    assert s[n + 12..n + 22] == b;
    assert s[n + 23..] == c;
    s
  }

  /** A secret-shaped string is its key and its three sections, dash-separated. */
  lemma SecretSplit(s: string, key: string)
    requires IsSecretFor(s, key)
    ensures var n := |key|;
      s == key + "-" + s[n + 1..n + 11] + "-" + s[n + 12..n + 22] + "-" + s[n + 23..]
  {
    var n := |key|;
    var t := key + "-" + s[n + 1..n + 11] + "-" + s[n + 12..n + 22] + "-" + s[n + 23..];
    assert |t| == |s|;
    forall i | 0 <= i < |s|
      ensures t[i] == s[i]
    {
      if i < n {
        assert s[..n][i] == s[i];
      }
    }
  }

  /** Every secret-shaped string for `key` is the candidate of some draws. */
  lemma SecretReachable(s: string, key: string)
    requires IsSecretFor(s, key)
    ensures exists d :: |d| == SecretDraws && CandidateSecret(key, d) == s
  {
    var n := |key|;
    var a, b, c := s[n + 1..n + 11], s[n + 12..n + 22], s[n + 23..];
    var da, db, dc := SectionDraws(a), SectionDraws(b), SectionDraws(c);
    var d := da + db + dc;
    assert d[..10] == da && d[10..20] == db && d[20..] == dc;
    SecretSplit(s, key);
    CandidateSecretParts(key, d, a, b, c);
  }

  lemma CandidateSecretParts(key: string, d: seq<nat>, a: string, b: string, c: string)
    requires |d| == SecretDraws
    requires SecretSection(d[..10]) == a && SecretSection(d[10..20]) == b && SecretSection(d[20..]) == c
    ensures CandidateSecret(key, d) == key + "-" + a + "-" + b + "-" + c
  {
  }

  /** A secret names its key: the characters before its last 33. */
  lemma SecretDeterminesKey(s: string, k1: string, k2: string)
    requires IsSecretFor(s, k1) && IsSecretFor(s, k2)
    ensures k1 == k2
  {
  }

  /** The key candidate drawn from the stream at `pos`. */
  function KeyAt(rng: seq<nat>, pos: nat): (k: string)
    requires pos + KeyLength <= |rng|
    ensures IsKey(k)
  {
    CandidateKey(rng[pos..pos + KeyLength])
  }

  /**
   * What `Create.key` settles on when it draws from `rng` at `pos`: the first candidate
   * no active row holds, with the position after the draws spent; None when the
   * draws run out first.
   */
  function FirstFreeKey(urls: seq<Url>, rng: seq<nat>, pos: nat): (r: Option<Drawn>)
    ensures r.Some? ==> IsKey(r.value.value) && GetUrlByKey(urls, r.value.value).None?
    decreases |rng| - pos
  {
    if |rng| < pos + KeyLength then None
    else if GetUrlByKey(urls, KeyAt(rng, pos)).None? then Some(Drawn(KeyAt(rng, pos), pos + KeyLength))
    else FirstFreeKey(urls, rng, pos + KeyLength)
  }

  /**
   * Every candidate drawn from `from` up to `to`, one per `KeyLength` draws, is the
   * key of an active row.
   */
  predicate AllHeld(urls: seq<Url>, rng: seq<nat>, from: nat, to: nat)
    decreases to - from
  {
    if to <= from then from == to else
      from + KeyLength <= |rng| && GetUrlByKey(urls, KeyAt(rng, from)).Some? &&
      AllHeld(urls, rng, from + KeyLength, to)
  }

  /**
   * `FirstFreeKey` is the first free candidate: every candidate before the one it
   * settles on, at `at`, is held by an active row; when it finds nothing, every
   * candidate the stream has room for is held.
   */
  lemma {:induction false} FirstFreeKeyIsFirst(urls: seq<Url>, rng: seq<nat>, pos: nat) returns (at: nat)
    ensures pos <= at && AllHeld(urls, rng, pos, at)
    ensures FirstFreeKey(urls, rng, pos).Some? ==>
      at + KeyLength <= |rng| && FirstFreeKey(urls, rng, pos).value.next == at + KeyLength &&
      FirstFreeKey(urls, rng, pos).value.value == KeyAt(rng, at)
    ensures FirstFreeKey(urls, rng, pos).None? ==> |rng| < at + KeyLength
    decreases |rng| - pos
  {
    if |rng| < pos + KeyLength || GetUrlByKey(urls, KeyAt(rng, pos)).None? {
      at := pos;
    } else {
      at := FirstFreeKeyIsFirst(urls, rng, pos + KeyLength);
      assert FirstFreeKey(urls, rng, pos) == FirstFreeKey(urls, rng, pos + KeyLength);
      assert AllHeld(urls, rng, pos, at);
    }
  }

  /** `Create.key(db)`: draw candidates until one is not the key of an active row. */
  method Key(db: Session, rng: seq<nat>, pos: nat) returns (r: Option<Drawn>)
    ensures r == FirstFreeKey(db.urls, rng, pos)
    ensures r.Some? ==> IsKey(r.value.value) && GetUrlByKey(db.urls, r.value.value).None?
  {
    if |rng| < pos + KeyLength {
      return None;
    }
    var at := pos;
    var key := KeyAt(rng, at);
    while GetUrlByKey(db.urls, key).Some?
      invariant at + KeyLength <= |rng|
      invariant key == KeyAt(rng, at)
      invariant FirstFreeKey(db.urls, rng, pos) == FirstFreeKey(db.urls, rng, at)
      decreases |rng| - at
    {
      at := at + KeyLength;
      if |rng| < at + KeyLength {
        return None;
      }
      key := KeyAt(rng, at);
    }
    return Some(Drawn(key, at + KeyLength));
  }

  /**
   * What `Create.secret(db, key)` yields from the draws at `pos`. The first candidate is
   * kept when no active row holds it; otherwise the retry calls `_secret()` without
   * `key`, which raises before any second candidate exists.
   */
  function SecretOutcome(urls: seq<Url>, key: string, rng: seq<nat>, pos: nat): (r: Result<Drawn, Error>)
    ensures r.Ok? ==> IsSecretFor(r.value.value, key) && GetUrlBySecret(urls, r.value.value).None?
    ensures r.Ok? ==> r.value.next == pos + SecretDraws <= |rng|
    ensures r.Ok? ==> r.value.value == CandidateSecret(key, rng[pos..pos + SecretDraws])
    ensures r == Err(MissingKeyArgument) <==>
              pos + SecretDraws <= |rng| &&
              GetUrlBySecret(urls, CandidateSecret(key, rng[pos..pos + SecretDraws])).Some?
    ensures r == Err(OutOfEntropy) <==> |rng| < pos + SecretDraws
    ensures r.Err? ==> r.error != AlreadyExists
  {
    if |rng| < pos + SecretDraws then Err(OutOfEntropy)
    else
      var secret := CandidateSecret(key, rng[pos..pos + SecretDraws]);
      if GetUrlBySecret(urls, secret).Some? then Err(MissingKeyArgument)
      else Ok(Drawn(secret, pos + SecretDraws))
  }

  /** `Create.secret(db, key)`. */
  method Secret(db: Session, key: string, rng: seq<nat>, pos: nat) returns (r: Result<Drawn, Error>)
    ensures r == SecretOutcome(db.urls, key, rng, pos)
    ensures r.Ok? ==> IsSecretFor(r.value.value, key) && GetUrlBySecret(db.urls, r.value.value).None?
  {
    if |rng| < pos + SecretDraws {
      return Err(OutOfEntropy);
    }
    var secret := CandidateSecret(key, rng[pos..pos + SecretDraws]);
    // The source retries in a `while` loop, but its body calls `cls._secret()` without
    // `key`, so Python raises TypeError on the first collision: no second candidate exists.
    if GetUrlBySecret(db.urls, secret).Some? {
      return Err(MissingKeyArgument);
    }
    return Ok(Drawn(secret, pos + SecretDraws));
  }
}
