# VeritasOS core in Dafny

VeritasOS is a tabletop-RPG companion for the game Ordem Paranormal. A game
master creates a *table* (mesa). The table has a shared token, handed to the
players, and a longer secret master token. The master registers each
player by creating a user account and a *character* under the table's shared
token; the player later opens that character with the shared token and the
character's own token. The master also files *NPCs* under the table, and can
have a language model draft one. Accounts log in with a salted password.

This project models the server-side core:

- The token codec (`lib/tokens.ts`): generation, display formatting with
  hyphen-separated upper-case chunks, cleaning and format validation.
- The dice resolver (`lib/dice.ts`).
- The password record format (`lib/auth.ts`).
- The API route handlers, as operations on an in-memory store:
  characters, NPCs, tables, users, login and NPC generation.
- The page gate (`middleware.ts`).
- The start-up seed of the default master account (`lib/init.ts`).

One module per source file:

| module | file | form |
|---|---|---|
| `Tokens` | tokens.dfy | functions; `FormatToken` is a method with the source's loop |
| `Dice` | dice.dfy | `RollDice` is a method with the source's loop; max and sum are functions |
| `Auth` | auth.dfy | functions |
| `Store` | store.dfy | record datatypes and the `Database` class, whose insert methods update its sequences |
| `UsersRoute`, `TablesRoute`, `CharactersRoute`, `NpcsRoute` | *_route.dfy | `POST` handlers are methods that modify the `Database`; `GET` handlers are functions that read it |
| `LoginRoute`, `GenerateNpcRoute`, `Middleware` | login_route.dfy, generate_npc_route.dfy, middleware.dfy | functions |
| `Init` | init.dfy | a method with a conditional insert, specified by a function |
| `JsonValues`, `Wrappers` | json.dfy, wrappers.dfy | parsed JSON values with JavaScript truthiness and `typeof`; `Option` |

Each handler is a validation ladder that ends in at most one insert. Its
`ensures` states, in source order:

- every error status and message;
- that no error changes the store;
- the exact row a success appends;
- a read-back through the matching `GET` handler.

The `Database` keeps an invariant `Valid()` that every insert preserves:

- usernames and the two UNIQUE tokens stay unique;
- stored table tokens are the 32- and 48-digit lowercase hex the generators make;
- tables and NPCs are stamped in increasing `created_at` order.

Randomness, the key derivation function and the model call are parameters:

- `crypto.randomBytes(n)` becomes `n` given bytes.
- `Math.random()` becomes an integer draw in `[0, sides)`.
- PBKDF2 becomes `kdf`, an arbitrary deterministic function. The only
  constraint (`IsHexDigestFunction`) is that it returns 128 lowercase hex digits.
- The language model's reply and `JSON.parse` become an optional string and
  a partial function.

## Model

| member | source | states |
|---|---|---|
| Tokens.GenerateToken | lib/tokens.ts:8-10 | `generateToken(n)` yields exactly `2n` lowercase hex digits |
| Tokens.HexEncodeInjective | lib/tokens.ts:8-10 | distinct random bytes give distinct tokens: the hex encoding is injective |
| Tokens.GenerateTableTokens | lib/tokens.ts:50-58 | a 32-digit shared token and a 48-digit master token; both pass `isValidTokenFormat` and are already clean |
| Tokens.GenerateCharacterToken | lib/tokens.ts:64-66 | a 32-digit lowercase hex token that passes `isValidTokenFormat` and is already clean |
| Tokens.FormatToken | lib/tokens.ts:18-24 | the loop's result is the `chunkSize` slices joined with `-` and upper-cased (`Formatted`); needs `chunkSize > 0` unless the token is empty, since the loop never ends otherwise |
| Tokens.ChunksConcat | lib/tokens.ts:19-22 | the pushed slices put back together give the token |
| Tokens.ChunksLengths | lib/tokens.ts:19-22 | every chunk has exactly `chunkSize` characters except the last, which has 1 to `chunkSize`; no chunks only for the empty token |
| Tokens.FormattedWithoutHyphens | lib/tokens.ts:18-24 | removing the hyphens from the display form gives the token (without its own hyphens) upper-cased |
| Tokens.FormattedWithoutHyphensRaw | lib/tokens.ts:18-24 | for a hyphen-free token, removing the hyphens from its display form gives exactly the token upper-cased |
| Tokens.RemoveHyphens | lib/tokens.ts:32 | `replace(/-/g, '')`: no `-` is left and the text never grows; its other properties are in `RemoveHyphensKeeps`, `RemoveHyphensJoin` and `FormattedWithoutHyphens` |
| Tokens.CleanToken | lib/tokens.ts:31-33 | the cleaned token contains no `-` and no upper-case letter |
| Tokens.CleanIdempotent | lib/tokens.ts:31-33 | `cleanToken(cleanToken(s)) == cleanToken(s)` |
| Tokens.LowerHexIsClean | lib/tokens.ts:31-33 | a lowercase hex token is its own cleaned form |
| Tokens.CleanFormatted | lib/tokens.ts:18-33 | cleaning the display form equals cleaning the token |
| Tokens.CleanFormattedRaw | lib/tokens.ts:18-33 | `cleanToken(formatToken(t))` is `t` lower-cased, and `t` itself for a lowercase hex token |
| Tokens.IsValidTokenFormat | lib/tokens.ts:40-44 | valid exactly when the cleaned token has 16 to 64 characters, all in `[0-9a-f]` (both directions) |
| Tokens.NonHexCharRejected | lib/tokens.ts:40-44 | a character that is neither a hex digit nor `-` (a space, `g`, `:`) makes a token invalid |
| Tokens.FormattedNotEmpty | lib/tokens.ts:18-24 | the display form of a non-empty hyphen-free token is not empty |
| Tokens.ValidFormatOfFormatted | lib/tokens.ts:18-44 | `isValidTokenFormat(formatToken(t)) == isValidTokenFormat(t)` |
| Tokens.GeneratedRoundTrip | lib/tokens.ts:8-44 | a generated token comes back unchanged from format-then-clean; for 8 to 32 bytes both its raw and its display form are accepted |
| Dice.RollDice | lib/dice.ts:12-27 | `count` rolls (none for `count <= 0`), roll i is draw i plus 1 and lies in `[1, sides]`; `highest` is `Math.max` of the rolls and `total` their sum |
| Dice.MaxOf | lib/dice.ts:19 | `Math.max(...rolls)`: `-Infinity` exactly for no rolls; its other properties are in `HighestIsMaximum` |
| Dice.Sum | lib/dice.ts:20 | definition of the `reduce` sum; its properties are in `HighestIsMaximum` and `RollDice` |
| Dice.HighestIsMaximum | lib/dice.ts:19-20 | for at least one roll in `[1, sides]`: `highest` is one of the rolls, no roll exceeds it, it lies in `[1, sides]` and is at most `total` |
| Dice.RollAttribute | lib/dice.ts:33-43 | `v <= 0` gives exactly `{rolls: [1], highest: 1, total: 1}`; `v > 0` gives `rollDice(v, 20)`'s result; either way `highest` is a real roll in `[1, 20]`, at least every roll and at most the total |
| Auth.Split | lib/auth.ts:19 | `split(':')` always yields at least one field |
| Auth.HashPassword | lib/auth.ts:7-13 | the record splits into exactly two fields: the 32-digit hex salt from the random bytes and `kdf(password, salt)` of 128 digits |
| Auth.VerifyPassword | lib/auth.ts:18-29 | verification can only succeed on a record containing `:` |
| Auth.VerifyHashed | lib/auth.ts:7-29 | round trip: `verifyPassword(p, hashPassword(p))` holds |
| Auth.WrongPasswordRefused | lib/auth.ts:18-29 | a password whose digest under the stored salt differs is refused |
| Auth.NoSeparatorRefused | lib/auth.ts:19-22 | a record without `:` is refused whatever the password |
| Auth.EmptyFieldRefused | lib/auth.ts:19-22 | an empty salt field or an empty digest field is refused whatever the password |
| Auth.VerifyIsDigestEquality | lib/auth.ts:24-28 | for a well-formed record, verification is exactly `kdf(password, salt) == digest` |
| Auth.TrailingFieldsIgnored | lib/auth.ts:19 | anything after a second `:` makes no difference |
| Auth.GenerateSessionToken | lib/auth.ts:34-36 | 64 lowercase hex digits, computed from the random bytes alone |
| Store.First | app/api/users/route.ts:38-40 | a lookup finds a row exactly when one matches, and then the first match |
| Store.FirstAppend | app/api/users/route.ts:38-62 | appending a row changes a first-match lookup only when nothing earlier matched |
| Store.Database.InsertUser | app/api/users/route.ts:53-62 | appends exactly the new user, stamped with the clock; the invariant is kept and nothing else changes |
| Store.Database.InsertTable | app/api/tables/route.ts:30-42 | appends the new table unless its token is taken (UNIQUE violation: nothing changes); the invariant is kept |
| Store.Database.InsertCharacter | app/api/characters/route.ts:76-98 | appends the new character with `pv = pe = san = 0`, no inventory and no rituals; the invariant is kept |
| Store.Database.InsertNpc | app/api/npcs/route.ts:72-91 | appends the new NPC; the invariant is kept and nothing else changes |
| UsersRoute.Post | app/api/users/route.ts:12-88 | 400 missing field, then 400 username under 3, then 400 password under 6, then 409 taken username, each leaving the store unchanged; otherwise exactly one user with `hashPassword(password)` and `is_master` 1 or 0, answered with `is_master || false`, and readable through `GET` |
| UsersRoute.Get | app/api/users/route.ts:90-121 | 400 without a username; found exactly when some user has the name, else 404; `is_master` reported as `stored == 1` |
| TablesRoute.Post | app/api/tables/route.ts:22-79 | a token pair from the randomness; 409 and no change when the shared token is already stored; otherwise one table with the null and `'ordem_paranormal'` defaults, answered with the stored row, accepted by `validateTableToken` and found by `GET` with its master token |
| TablesRoute.Get | app/api/tables/route.ts:81-130 | 400 missing, 400 malformed, then found exactly when some table's `master_token` equals the cleaned input, else 404 |
| TablesRoute.ValidateTableToken | app/api/tables/route.ts:141-159 | false for a malformed token, else true exactly when some table's `token` equals the cleaned input; it cannot fail |
| TablesRoute.SharedTokenNeverOpensMasterLookup | app/api/tables/route.ts:101-117 | a table's shared token, raw or formatted, never opens the master lookup (404) |
| TablesRoute.StoredTablesValidate | app/api/tables/route.ts:141-159 | every stored table's token, raw or formatted, passes `validateTableToken` |
| CharactersRoute.FirstFree | app/api/characters/route.ts:52-66 | the index of the first of the first 10 candidate tokens that is not stored, or 10 when all are stored |
| CharactersRoute.FindFreeToken | app/api/characters/route.ts:52-66 | the retry loop stops at the first free candidate; fewer than 10 attempts exactly when one of the first 10 candidates is free, and then the token is not stored; at most 10 existence checks |
| CharactersRoute.Post | app/api/characters/route.ts:18-125 | 400 missing field, 400 malformed table token, 404 unknown table, 500 when all 10 candidates are taken, each leaving the store unchanged; otherwise one character under a token not stored before, with the cleaned table token, `user_id \|\| null`, `origin \|\| null`, attributes `\|\| 0`, `pv = pe = san = 0`, which `GET` then returns |
| CharactersRoute.Get | app/api/characters/route.ts:127-174 | 400 unless both tokens are given, 400 unless both are well formed; found exactly when a character matches both cleaned tokens, else 404; the sheet omits `user_id` |
| NpcsRoute.FirstNonNumber | app/api/npcs/route.ts:32-40 | no failure exactly when all six attributes are numbers; otherwise the first non-number in the order `nex, agi, for, int, pre, vig` |
| NpcsRoute.CheckAttributes | app/api/npcs/route.ts:32-40 | the loop with early return names exactly that first failing attribute |
| NpcsRoute.Post | app/api/npcs/route.ts:19-105 | 400 missing name or origin, 400 naming the first non-numeric attribute, 400 missing table token, 400 malformed, 404 unknown table, each leaving the store unchanged; otherwise one NPC under the cleaned token with `highlight_skill`/`dark_secret` defaulting to `''`, listed first by `GET` under the model's counter clock |
| NpcsRoute.Get | app/api/npcs/route.ts:107-144 | 400 missing, 400 malformed; otherwise exactly the NPCs filed under the cleaned token, with `count` equal to the list length |
| NpcsRoute.Listing | app/api/npcs/route.ts:129-138 | definition: the table's NPCs, newest first; its properties are in `ListingContents` and `ListingNewestFirst` |
| NpcsRoute.ListingContents | app/api/npcs/route.ts:129-138 | the listing holds a view of every NPC of the table and of nothing else |
| NpcsRoute.ListingNewestFirst | app/api/npcs/route.ts:135 | the listing is ordered by `created_at`, strictly descending under the model's counter clock |
| NpcsRoute.NpcsAtChronological | app/api/npcs/route.ts:134 | filtering by table keeps the insertion order |
| LoginRoute.RowsAt | app/api/auth/login/route.ts:47-49 | the joined rows for one table are exactly that table's characters belonging to the user |
| LoginRoute.Join | app/api/auth/login/route.ts:39-51 | definition of the join with `ORDER BY t.created_at DESC`; its properties are in `JoinMembership`, `JoinOnce` and `JoinNewestFirst` |
| LoginRoute.JoinOnce | app/api/auth/login/route.ts:39-51 | one entry per character: with unique table and character tokens, each joined (table, character) pair occurs exactly once |
| LoginRoute.JoinMembership | app/api/auth/login/route.ts:39-51 | a (table, character) pair is in the join exactly when both are stored, the character is the user's and sits at that table |
| LoginRoute.JoinNewestFirst | app/api/auth/login/route.ts:50 | along the join, table `created_at` never increases |
| LoginRoute.NoCharactersNoTables | app/api/auth/login/route.ts:39-72 | a user with no characters gets an empty `tables` list |
| LoginRoute.Post | app/api/auth/login/route.ts:5-80 | 400 missing field; success exactly when the user exists and the password verifies, every other case the same 401; on success the user with `is_master` as `stored == 1`, a 64-digit session token and one entry per joined row |
| LoginRoute.RegisteredUserLogsIn | app/api/auth/login/route.ts:17-36 | a user whose record is `hashPassword(p)` logs in with `p` |
| LoginRoute.UnknownUserLooksLikeWrongPassword | app/api/auth/login/route.ts:23-36 | an unknown username and a wrong password get identical answers |
| GenerateNpcRoute.RemoveAll | app/api/generate-npc/route.ts:69-70 | a global removal of a marker with one optional following newline never lengthens the text |
| GenerateNpcRoute.RemoveAllUntouched | app/api/generate-npc/route.ts:69-70 | the removal keeps, character for character, a leading piece in which no occurrence of the marker starts |
| GenerateNpcRoute.Trim | app/api/generate-npc/route.ts:71 | the result is a slice of the text with only ECMAScript white space cut off either end, and neither end of it is white space |
| GenerateNpcRoute.FencedReply | app/api/generate-npc/route.ts:68-71 | for a body in which no three-backtick fence starts, stripping its `json`-fenced form gives the same text as stripping the body |
| GenerateNpcRoute.StripFences | app/api/generate-npc/route.ts:68-71 | both fence removals, then the trim; the result is never longer than the reply; its other properties are in `FencedReply` |
| GenerateNpcRoute.IsNpcShape | app/api/generate-npc/route.ts:83-91 | definition of the shape check: not `null`, a truthy `name`, and `nex, agi, for, int, pre, vig` all numbers; used by `Post` |
| GenerateNpcRoute.Post | app/api/generate-npc/route.ts:19-106 | 400 without a non-empty string theme, 500 without an API key, 500 when the model call fails, 500 "Erro ao processar resposta da IA" for unparseable text, 500 for a parsed `null`, 500 "Resposta da IA em formato inválido" for the wrong shape; accepted exactly when the parsed value has a truthy `name` and six numeric attributes, and then returned unchanged |
| GenerateNpcRoute.GuardsPrecedeModel | app/api/generate-npc/route.ts:21-35 | the theme and API-key guards fail the same way whatever the model replies |
| GenerateNpcRoute.FencedReplyAccepted | app/api/generate-npc/route.ts:63-98 | a reply wrapped in a `json` code fence gets the same answer as the bare reply, for any body in which no fence starts |
| Middleware.Decide | middleware.ts:4-38 | redirect exactly when the path starts with no public API prefix, is not `/` or `/login`, starts with `/master` or `/player` and there is no non-empty session cookie; the redirect carries the path |
| Middleware.AnySessionPasses | middleware.ts:27-35 | any non-empty cookie value lets every path pass; the value is not checked |
| Middleware.ProtectedAreasRedirect | middleware.ts:22-34 | everything under `/master` or `/player` redirects to the login page without a session |
| Middleware.PublicApiPrefixesPass | middleware.ts:9-14 | anything starting with `/api/auth/login` or `/api/users` passes, with or without a session |
| Middleware.AreaPrefixIsTextual | middleware.ts:22-23 | the protected test is textual: `/masterclass` is protected too |
| Init.SeedUsers | lib/init.ts:11-22 | after seeding, a `mestre` exists; if one was there the users are unchanged, else exactly one master user with the given hash is appended |
| Init.InitializeDatabase | lib/init.ts:8-29 | the users become `SeedUsers` of the old users with `hashPassword('mestre123')`; with `mestre` present nothing changes; no other collection changes |
| Init.SeedIdempotent | lib/init.ts:8-29 | seeding twice leaves the same users as seeding once |
| Init.ExistingMasterKept | lib/init.ts:11-15 | an existing `mestre` is neither re-hashed nor promoted |
| Init.SeededMasterLogsIn | lib/init.ts:17-22 | a freshly seeded `mestre` logs in with `mestre123` and is reported as master |

## Left out

- The schema is the one the route queries imply, not the one `lib/db.ts` creates. `lib/db.ts` declares no `users` table, and its `tables` has no `description`, `attribute_mode` or `master_user_id` column. Against that schema, every query that names a table or column `lib/db.ts` does not create would throw and answer 500: every users and login query, the tables `INSERT`, and the tables `GET`, whose `SELECT` names `description` and `attribute_mode`. The model stores those columns and has a `users` table, as the routes and the seed expect.
- `tables.master_token` is not unique in the model, following `lib/db.ts`. `scripts/migrate.js` declares it `UNIQUE`; under that schema a master-token collision would also fail the insert, which the model does not capture.
- SQLite itself (`lib/db.ts`, `scripts/migrate.js`) is not part of this model. Each table is a sequence of rows in insertion order. Ids are position plus one, which holds because no row is ever deleted. The unique keys are the username, `tables.token` and `characters.token`.
- `created_at` is a counter that every insert advances, not a wall-clock time. SQL leaves the order of rows with equal `created_at` open. The login join lists a table's characters in store order; its lemma states only the guaranteed descending table order.
- NpcsRoute.Post and NpcsRoute.ListingNewestFirst: the claims that a new NPC heads its table's listing and that the listing's `created_at` strictly decreases hold only for the model's counter. In the source, `created_at` has one-second resolution (`CURRENT_TIMESTAMP`), so NPCs filed in the same second tie and `ORDER BY created_at DESC` leaves their order open; the source promises only non-increasing timestamps.
- Request parsing is left out. A body that `request.json()` cannot parse reaches each route's generic `catch` 500, which is not modelled.
- Only string-valued and integer-valued request fields are modelled. Text fields are optional strings and numeric fields optional integers; only the NPC attributes and the generator's theme keep their JSON values, because those routes test `typeof`.
- Fields of another JSON type follow JavaScript's coercions in the source, and the model does not capture them. For example, the users route with `"username": 12` skips the length rule, because `(12).length < 3` is false, and stores the user. The characters route with `"nex": "abc"` stores `"abc"` through `data.nex || 0`. The NPC route with `"name": 5` passes `!npcData.name` and inserts the NPC.
- CharactersRoute.Post: the `UNIQUE constraint` → 409 branch is not modelled. The route checks the token first and the model runs one request at a time, so the insert cannot violate the constraint. The same holds for the 409 in the users route's `catch`.
- Concurrency between requests is not modelled.
- The generic 500 answers of every `catch`, and the `initializeDatabase` path that logs and swallows a store error, are not modelled. Store operations here cannot fail, so `InitializeDatabase` never throws.
- The import-time call of `initializeDatabase` is not modelled. Callers of the model invoke the method explicitly.
- Dice.RollDice: `sides <= 0` is excluded by the requirement that each draw lies in `[0, sides)`. `Math.random()` and floating point are not modelled.
- Dice.RollDice and Tokens.GenerateToken take `sides` and `length` explicitly. The defaults `sides = 20` (lib/dice.ts:12) and `length = 16` (lib/tokens.ts:8) are not parameter defaults here, since the random input follows them; every source caller passes the argument.
- Tokens.FormatToken: `chunkSize` is a natural number. A negative or fractional chunk size would make the source loop run forever or slice at fractional positions.
- Case mapping (`toUpperCase`, `toLowerCase`) is ASCII-only. Non-ASCII letters keep their case here, whereas JavaScript maps them too. Token validity is unaffected, since any non-hex character makes a token invalid either way.
- String lengths and slice positions count Unicode scalar values rather than UTF-16 code units. For characters outside the Basic Multilingual Plane this changes the username/password minimum-length checks and where `formatToken` cuts its chunks; a token the model's `IsValidTokenFormat` accepts consists of ASCII hex digits and hyphens, so it is cut the same way in both counts.
- JSON numbers are integers here. `typeof` is `'number'` for all of them; fractional numbers, `NaN` and infinities are not represented.
- PBKDF2 and SHA-256 are not modelled. They are the abstract `kdf`, constrained only to return 128 lowercase hex digits. The Gemini client, the prompt text and the model name are left out too; the model's reply is an input.
- `JSON.parse` is an abstract partial function.
- The `config.matcher` of middleware.ts is not modelled. Its negative look-ahead keeps `middleware` from running on any path whose text after the leading `/` starts with `api` (so `/apiary` too), `_next/static`, `_next/image` or `favicon.ico`. `Decide` is the function as written, for every path.
- How the redirect URL is rendered is not modelled: the base URL and the percent-encoding of `redirect`. `RedirectToLogin` carries the target path and the `redirect` value.
- `DISTINCT` in the login query is not a separate step: `LoginRoute.JoinOnce` proves that, with unique table and character tokens, every joined pair occurs exactly once, so there is nothing to remove.
- The pages, components and client-side checks are not modelled. They only call these routes.
