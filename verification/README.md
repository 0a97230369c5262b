# URL shortener: identifier allocation and record lifecycle

This project models the core of a URL-shortening service, `shortener_app/crud.py`, and
proves properties of it in Dafny. Each stored row (`Models.Url`) maps a public short key
and a secret administration key to a target URL. The row also carries an active flag and
a click counter. The model covers:

- **Candidate generation** (`Create` module). A key is 6 characters drawn from
  `A-Z0-9`. A secret is the key followed by three dash-separated sections of 10
  characters each, drawn from `chars + chars.lower()`.
- **Retry-until-free allocation.** `Create.Key` draws candidates until no active row
  holds one. `Create.Secret` keeps its first candidate when no active row holds it.
  Otherwise its retry calls `_secret()` without the `key` argument, which raises a
  TypeError. The model reports that as `MissingKeyArgument`.
- **Queries** (`Queries` module). `get_db_url_by_key` and `get_db_url_by_secret` return
  a row whose column matches and whose `is_active` is set, or nothing when there is none.
- **Lifecycle** (`Crud` module).
  - `create_db_url` refuses an alias that is `site`, `docs` or held by an active row,
    and otherwise appends exactly one row.
  - `update_db_clicks` adds one click.
  - `deactivate_url` is a one-way soft delete.

The database session is `Models.Session`, a class whose field `urls` is the table as a
sequence of rows. Each mutating operation is a method with `modifies db`. Its
postcondition ties the new table to a function of the old one: `CreateOutcome`,
`WithClick` or `Deactivated`. The lemmas are about those functions. A row is addressed by
its position in `urls`. That position stands for the identity of the ORM object that the
source mutates in place.

Randomness is a parameter. `rng: seq<nat>` is a stream of draws. A draw `d` makes
`secrets.choice(alphabet)` answer `alphabet[d % |alphabet|]`. Every candidate consumes
the next draws from a position `pos`: 6 draws for a key and 30 for a secret. Every run of
the source that terminates consumes finitely many draws, and the model reproduces that
run from those draws. When the stream runs out before a loop finishes, the model returns
`OutOfEntropy`. On a valid table, with no alias or an alias that is not taken, and
with enough draws, `create_db_url` always returns a row (`CreateSucceeds`). The `*Reachable` lemmas show that every well-formed key or secret
is the candidate of some draws.

The store invariant `Crud.Valid` has two parts: every secret has the shape of its row's
key, and no two active rows share a key. The three operations preserve it. From it the
model proves three facts:

- Active secrets are unique too (`ActiveSecretsUnique`).
- The faulty secret retry can never be reached from `create_db_url`
  (`SecretRetryUnreachable`). The key is free among active rows, and a secret determines
  its key.
- After a deactivation, neither query finds the deactivated row, so a second
  deactivation finds nothing (`DeactivateHides`).

Some consequences of the code as written:

- Both queries filter on `is_active`, so the uniqueness checks for keys and secrets
  consider active rows only.
- After a row is deactivated, the alias check lets its key be created again
  (`DeactivatedAliasReusable`).
- A second `deactivate_url` on the same secret returns nothing.
- The retry of `Create.secret` raises a TypeError; it never draws a second candidate.
- A reserved alias and an alias held by an active row both produce the single
  "Custom URL already exists" outcome (`AlreadyExists`).

## Model

| member | source | states |
|---|---|---|
| Queries.FirstActive | shortener_app/crud.py:8-21 | the answer of `filter(column == v, is_active).first()`: the position of a matching active row with no matching active row before it, and None exactly when no active row matches |
| Queries.GetUrlByKey | shortener_app/crud.py:8-13 | the first active row whose key is `key`; None exactly when no active row has that key |
| Queries.GetUrlBySecret | shortener_app/crud.py:16-21 | the first active row whose secret key is `secret`; None exactly when no active row has that secret |
| Create.LowerChar | shortener_app/crud.py:40 | `str.lower` on one ASCII character: an upper-case letter maps to the lower-case letter at the same offset, every other character to itself |
| Create.Lower | shortener_app/crud.py:40 | `str.lower` on ASCII text keeps the length and lowers each character |
| Create.Choice | shortener_app/crud.py:29 | `secrets.choice(alphabet)` under a draw; a draw below the alphabet's size picks the character at that position, so every character of an alphabet can be chosen |
| Create.ChoiceIn | shortener_app/crud.py:29 | every draw makes `secrets.choice(alphabet)` answer a character of the alphabet |
| Create.Choices | shortener_app/crud.py:29 | the `"".join(... for _ in range(n))` of choices: one character per draw |
| Create.ChoicesIn | shortener_app/crud.py:29 | every character of the joined choices is a character of the alphabet |
| Create.KeyAlphabet | shortener_app/crud.py:25 | every character of `chars` is an upper-case ASCII letter or a digit |
| Create.KeyCharIndex | shortener_app/crud.py:25 | every upper-case ASCII letter and digit occurs in `chars`, at the returned position |
| Create.SecretAlphabet | shortener_app/crud.py:40 | every character of `chars + chars.lower()` is an ASCII letter or digit |
| Create.SecretLowerAt | shortener_app/crud.py:40 | the lower-cased copy of `chars` follows the 36 original characters, so its letters are `a`-`z` in order |
| Create.SecretCharIndex | shortener_app/crud.py:40 | every ASCII letter and digit occurs in `chars + chars.lower()`, at the returned position |
| Create.CandidateKey | shortener_app/crud.py:27-29 | `_key()` has length 6 and every character is in `chars` |
| Create.KeyReachable | shortener_app/crud.py:27-29 | every 6-character string over `chars` is a possible `_key()` |
| Create.SecretSection | shortener_app/crud.py:38-41 | `_section_of_secret()` has 10 characters, each an ASCII letter or digit |
| Create.SectionDraws | shortener_app/crud.py:38-41 | every 10-character string of ASCII letters and digits is the section of some 10 draws |
| Create.CandidateSecret | shortener_app/crud.py:43-45 | `_secret(key)` is the key, a dash, then three 10-character sections of ASCII letters and digits separated by dashes, `len(key) + 33` characters in all |
| Create.SecretSplit | shortener_app/crud.py:45 | a secret-shaped string is exactly `key-S1-S2-S3` for its three sections |
| Create.SecretReachable | shortener_app/crud.py:43-45 | every string of that shape is a possible `_secret(key)` |
| Create.SecretDeterminesKey | shortener_app/crud.py:45 | a secret is the secret of one key only |
| Create.KeyAt | shortener_app/crud.py:33 | the candidate drawn at a stream position is key-shaped |
| Create.FirstFreeKey | shortener_app/crud.py:31-36 | the key `Create.key` settles on is key-shaped and no active row holds it |
| Create.FirstFreeKeyIsFirst | shortener_app/crud.py:33-35 | the key `Create.key` settles on is the first free candidate: every candidate drawn before it is held by an active row, and when the draws run out every candidate they had room for was held |
| Create.Key | shortener_app/crud.py:31-36 | the retry loop returns the first free candidate of the stream and does not touch the store; the key is key-shaped and `get_db_url_by_key` finds nothing for it |
| Create.SecretOutcome | shortener_app/crud.py:47-52 | a returned secret is the first candidate, has the shape of a secret of `key` and is held by no active row; the TypeError outcome occurs exactly when an active row holds the first candidate; running out occurs exactly when fewer than 30 draws are left; so a free first candidate with 30 draws left is returned |
| Create.Secret | shortener_app/crud.py:47-52 | `Create.secret` yields the outcome above; it never yields a second candidate |
| Crud.ActiveSecretsUnique | shortener_app/crud.py:48-51 | on a valid table no two active rows share a secret |
| Crud.AliasTaken | shortener_app/crud.py:56 | the alias is refused exactly when it is non-empty and is `site`, `docs` or the key of some active row |
| Crud.KeyDraw | shortener_app/crud.py:59 | `custom or Create.key(db)`: a given alias is the key and spends no draws; a drawn key is key-shaped; once the alias check has passed, no active row holds the key |
| Crud.CreateOutcome | shortener_app/crud.py:55-73 | "already exists" exactly when the alias is non-empty and is `site`, `docs` or the key of an active row; a created row has the given target, is active with 0 clicks, has the alias as key (or a key-shaped one when there is no alias), has a secret starting with its key and a dash, and neither its key nor its secret is held by an active row; the key is `custom or Create.key(db)` and the secret is the first candidate drawn after it; running out of draws occurs exactly when the key or the secret cannot be drawn |
| Crud.CreateUrl | shortener_app/crud.py:55-73 | on success exactly one row, the created one, is appended and the earlier rows are untouched; on an error the table is unchanged; validity is preserved; the alias-length guard of shortener_app/main.py:60-62 is its precondition |
| Crud.CreateSucceeds | shortener_app/crud.py:55-73 | on a valid table, a free alias (or a drawn key) with 30 draws left for the secret always yields a created row |
| Crud.CreateKeepsValid | shortener_app/crud.py:56-65 | appending a created row keeps no two active rows on one key |
| Crud.SecretRetryUnreachable | shortener_app/crud.py:48-51 | on a valid table create_db_url never ends in the TypeError of the secret retry |
| Crud.AliasTakenAfterCreate | shortener_app/crud.py:56-57 | creating the same custom alias twice: the second attempt is refused |
| Crud.WithClick | shortener_app/crud.py:76-80 | `clicks` of the row grows by exactly 1; no other field and no other row changes |
| Crud.UpdateClicks | shortener_app/crud.py:76-80 | the session's table becomes that table, the updated row is returned and validity is preserved |
| Crud.ClickKeepsLookups | shortener_app/crud.py:76-80 | counting a click changes the answer of neither query |
| Crud.Deactivated | shortener_app/crud.py:83-89 | an active row with the secret has `is_active` cleared with nothing else touched; without one the table is unchanged |
| Crud.DeactivateUrl | shortener_app/crud.py:83-89 | returns the deactivated row, or nothing exactly when no active row has the secret; the table becomes the one above |
| Crud.DeactivateHides | shortener_app/crud.py:83-89 | on a valid table, after deactivation neither query finds the row's secret or key, a repeated call changes nothing, and validity is kept |
| Crud.DeactivatedAliasReusable | shortener_app/crud.py:8-13 | because lookups see only active rows, the key of a deactivated row can be created again as a custom alias |

## Left out

- Row order of the queries: `.first()` without `order_by` (shortener_app/crud.py:9-12, 17-20) leaves the order to the database. The model assumes insertion order. On a valid table at most one active row matches either query (`Crud.Valid` for keys, `Crud.ActiveSecretsUnique` for secrets), so the choice affects no proved property.
- Unique constraints of the table: the model assumes the table enforces no unique constraint on `key` or `secret_key`. With one, the commit at shortener_app/crud.py:69 raises when a new row repeats the key or secret of an inactive row, and the creation fails; `Crud.DeactivatedAliasReusable` then shows only that the alias check of shortener_app/crud.py:56 passes.

- HTTP layer of shortener_app/main.py: routing, the HTTPException status mapping, redirect responses, the HTML root page, the `get_db` session generator and the base-URL prefixing of `get_admin_info`. Only the alias-length guard is kept, as the precondition of `Crud.CreateUrl`.
- `validators.url` (shortener_app/main.py:57): a third-party check whose rules are not part of this model. `Crud.CreateUrl` accepts any target string.
- SQLAlchemy session mechanics (`add`, `commit`, `refresh`) and the transient `url`/`admin_url` attributes set on the returned object (shortener_app/crud.py:71-72). The model assumes the table defaults `is_active = True` and `clicks = 0`; the models module that declares them is not part of this model.
- The quality and distribution of `secrets.choice`. The model is nondeterministic through the draw stream, not probabilistic. In particular, the doubled digits of `chars + chars.lower()` make digits twice as likely in a secret.
- Create.Key: the source loop is unbounded. The model bounds it by the draw stream and reports `OutOfEntropy` when the stream runs out. Termination of the source loop for a given store is not modelled.
- Concurrency between the check and the insert across requests. The source has no coordination, and the model is sequential.
- Object identity and aliasing of ORM rows: a row is addressed by its position in the table.
