# Bearer-token authentication core of a Flask CRUD service

This project is a Dafny model of the request logic in `app.py`, with proofs about that model. It covers:

- token issuance (`create_token`);
- the `token_required` decorator, which decides per request whether to answer with an error or to call the wrapped handler with the user the token names;
- the four handlers `signup`, `login`, `create_item` and `get_items`, run against an in-memory copy of the users and items tables.

Modules, one per component:

- `Wrappers` (`wrappers.dfy`): `Option` and `Result`.
- `Text` (`text.dfy`): the Python string operations the decorator depends on.
  - `str.startswith`.
  - `str.replace(old, "")`, which removes every non-overlapping occurrence, scanning from the left.
  - `str.strip()`, over Python's `isspace` character set.
  - `str(n)` and `int(s)`, including surrounding whitespace, a sign and `_` digit separators. `int(s)` skips a smaller whitespace set than `strip()`: among characters below 128 it skips only space, tab, newline, vertical tab, form feed and carriage return, so the separators U+001C to U+001F, which `isspace` accepts, make it fail.
  - Both conversions refuse more than 4300 digits (`MaxStrDigits`, the interpreter's default limit), `int(s)` not counting `_` separators.
  - Proved: `int(str(n)) == n` for every integer that `str` can write.
- `Records` (`records.dfy`): user and item rows, JSON response bodies, and the two user queries (`query.get(id)` and `filter_by(username=...).first()`). With unique keys, each query finds every stored row.
- `TokenService` (`tokens.dfy`): the claims `{sub: str(id), exp: now + minutes*60}` and `create_token`. The `sub` claim parses back to the id.
  - The JWT library is a parameter: `encode: Claims -> string` signs, and `decode: string -> DecodeOutcome` reports `Expired`, `Invalid`, `Failed` (any other exception) or `Decoded(sub)`.
  - `IdealDecode(issued, now)` is a reference decoder for the end-to-end properties. Tokens the secret signed are the keys of `issued`, and a token is expired once `exp <= now`.
- `AuthMiddleware` (`auth.dfy`): the decorator as pure functions.
  - `BearerToken` does the header check and token extraction.
  - `Resolve` maps the decode outcome and the user lookup to a decision.
  - `Authenticate` composes the two, and `Decorated` calls the handler.
  - Lemmas give each response code and state when the handler runs.
- `Handlers` (`handlers.dfy`): `Login` is a pure function of the users table. The class `Database` holds both tables and their id counters.
  - Its methods `Signup` and `CreateItem` update the tables in place and keep the invariant `Valid()`: increasing ids, unique usernames, and ids below the counters.
  - `GetItems` reads the items.
  - `CreateItemRoute` and `GetItemsRoute` put the decorator in front of the item handlers.
- `Scenarios` (`scenarios.dfy`): multi-request properties.
  - Signup and then login gives a token for the new user.
  - That token, sent as `Bearer <token>`, resolves to the user until `exp` and is reported expired from then on.
  - A header whose extracted token the secret never signed is rejected as invalid.
  - Creating an item and then listing returns it in the list, last in the model's insertion order.

Behaviour worth noting:

- `create_item` answers 200, because the handler passes no status to `jsonify`.
- The wrapped handler is called outside the `try` block (app.py:93). Its own failures are therefore not turned into a 500 by the decorator.
- The only item routes are `POST /items` and `GET /items`. There is no get-by-id, update or delete.
- The token is the header with every `"Bearer "` removed, not only the leading one, then stripped. `RepeatedPrefix` shows one consequence: `Bearer Bearer <t>` hands over `<t>`.

## Model

| member | source | states |
|---|---|---|
| `Text.RemoveAll` | app.py:67 | `replace("Bearer ", "")` never lengthens the header |
| `Text.RemoveAllAbsent` | app.py:67 | a header part with no occurrence of the prefix is left unchanged |
| `Text.RemoveAllInterior` | app.py:67 | an occurrence after the start is removed as well, not only a leading one |
| `Text.TrimBounds` | app.py:67 | `strip()` (and the trimming inside `int()` at line 70, over its own set) drops exactly the maximal whitespace prefix and suffix: everything cut is whitespace, and what is kept starts and ends with a non-whitespace character |
| `Text.Strip` | app.py:67 | `strip()` never lengthens the string, and what it returns neither starts nor ends with a whitespace character; `Text.TrimBounds` states exactly where it cuts |
| `Text.TrimNoWhitespace` | app.py:67 | a token without whitespace is unchanged by `strip()`, and by the trimming inside `int()` |
| `Text.ParseIntRejectsSeparator` | app.py:70 | `int()` fails on a string starting with one of U+001C to U+001F, which it does not skip although `isspace` holds of them |
| `Text.ParseIntRejectsLongNumeral` | app.py:70 | `int()` fails on a numeral of more than 4300 digits, with or without a minus sign |
| `Text.IntToDecimal` | app.py:52 | `str(user_id)` is a non-empty numeral with no whitespace, starting with `-` exactly for a negative id; `Text.NatToDecimalValue` gives its digits' value |
| `Text.NatToDecimalValue` | app.py:52 | `str(n)` of a natural number is a digit group that `int` reads back as `n` |
| `Text.DecimalRoundTrip` | app.py:70 | `int(str(n)) == n` for every integer of at most 4300 digits (the ones `str` can write), so the `sub` claim written at line 52 parses back to the id at line 70 |
| `Text.ParseInt` | app.py:70 | `int(decoded["sub"])` accepts only strings holding between 1 and 4300 digits; `Text.DecimalRoundTrip`, `Text.ParseIntRejectsSeparator` and `Text.ParseIntRejectsLongNumeral` state what it reads and what it refuses |
| `Records.FindById` | app.py:70 | `Users.query.get(id)` returns a stored row with that id, and returns none exactly when no row has it |
| `Records.FindByUsername` | app.py:116 | `filter_by(username=...).first()` returns a stored row with that name, and returns none exactly when no row has it |
| `Records.FindByIdFindsRow` | app.py:70 | with increasing (unique) ids, lookup by id finds every stored row itself |
| `Records.FindByUsernameFindsRow` | app.py:128 | with unique usernames, lookup by name finds every stored row itself |
| `TokenService.TokenClaims` | app.py:51-54 | for an id `str` can write, the claims name the user: `int(sub)` is the user id, and `exp` lies `minutes*60` seconds after `now` |
| `TokenService.CreateToken` | app.py:46-56 | fails with "user not found" exactly when no stored user has the id, and with the `str` digit-limit error exactly when a stored id has more than 4300 digits; otherwise it returns the encoding of that user's claims |
| `AuthMiddleware.HeaderOrEmpty` | app.py:62 | `headers.get("Authorization", "")` is the header when present, and a missing header yields a string that fails the `"Bearer "` test; the `AuthMiddleware.BearerToken` contract states the test itself |
| `AuthMiddleware.ExtractToken` | app.py:67 | `replace("Bearer ", "").strip()` never lengthens the header and yields a token with no leading or trailing whitespace; `AuthMiddleware.DecodesExtractedToken`, `AuthMiddleware.ExtractPlainToken` and `AuthMiddleware.RepeatedPrefix` state what the decoder receives |
| `AuthMiddleware.BearerToken` | app.py:62-67 | a token is produced exactly when the header (default `""`) starts with `"Bearer "` |
| `AuthMiddleware.Resolve` | app.py:68-91 | a resolved user is a stored row; every other outcome is a 401, 404 or 500 |
| `AuthMiddleware.Authenticate` | app.py:59-94 | the handler only ever gets a stored user; denials are 401/403/404/500; a missing or non-`Bearer ` header always gives 403 "Token is missing or malformed" |
| `AuthMiddleware.Decorated` | app.py:93 | the wrapped handler's own result is returned unchanged for the resolved user; on a denial the decorator's response is returned and the handler is not consulted |
| `AuthMiddleware.MissingHeaderIndependent` | app.py:62-65 | with no `Bearer ` prefix the answer is 403 whatever the decoder or the users table: nothing is decoded or looked up |
| `AuthMiddleware.DecodesExtractedToken` | app.py:67-69 | with the prefix, the decision is what the decoder's outcome on the extracted token resolves to |
| `AuthMiddleware.DecodeFailureResponses` | app.py:83-91 | expired gives 401 "Token has expired", invalid gives 401 "Token is invalid", any other decode failure gives 500 "Something went wrong" |
| `AuthMiddleware.DecodedPayloadResponses` | app.py:70-72 | a missing `sub`, or one `int()` refuses, gives 500; an id with no user row gives 404 "User not found"; otherwise the handler gets the row with that id |
| `AuthMiddleware.InvokedExactlyWhen` | app.py:68-74 | the handler runs if and only if decode succeeds, `int()` accepts `sub`, and some user row has that id |
| `AuthMiddleware.SeparatorSubResponse` | app.py:70-91 | a `sub` starting with one of U+001C to U+001F gives 500 "Something went wrong" |
| `AuthMiddleware.LongSubResponse` | app.py:70-91 | a `sub` numeral of more than 4300 digits gives 500 "Something went wrong" |
| `AuthMiddleware.ExtractPlainToken` | app.py:67 | `Bearer <t>` hands exactly `<t>` to the decoder when `<t>` has no whitespace |
| `AuthMiddleware.RepeatedPrefix` | app.py:67 | `Bearer Bearer <t>` hands the decoder the same `<t>`, because every occurrence is removed |
| `Handlers.Login` | app.py:124-132 | login answers 200, 401 "Invalid credentials" or a 500; 200 only for a stored user with that name whose hash checks, with a token for that user's id; 500 only when that user's id has more than 4300 digits; 401 for an unknown name |
| `Handlers.LoginIssuesTokenForUser` | app.py:128-131 | with unique usernames, a stored user whose password checks gets a token for its own id (a 500 when `str` cannot write the id), and 401 otherwise |
| `Handlers.Database.constructor` | app.py:160 | a freshly created database: both tables empty, both counters at 1, the invariant established (a restarted service keeps its rows, and every other member takes any valid database) |
| `Handlers.Database.Signup` | app.py:112-122 | a taken username gives 400 with both tables unchanged; otherwise 200, and exactly one user is appended with a fresh id and the password's hash; the invariant is kept |
| `Handlers.Database.CreateItem` | app.py:134-142 | exactly one item with the given name and description is appended under a fresh id and returned with 200; users are unchanged |
| `Handlers.Database.GetItems` | app.py:144-149 | 200 with every stored item, in table order |
| `Handlers.Database.CreateItemRoute` | app.py:134-136 | a denied request returns the decorator's response and leaves both tables unchanged; an authenticated one appends the item and advances the item counter by one |
| `Handlers.Database.GetItemsRoute` | app.py:144-146 | the answer is `Decorated` applied to a handler listing the table: a denied request returns the decorator's response; an authenticated one lists every item |
| `Scenarios.IssuedTokenResolvesToUser` | app.py:46-93 | in a users table with unique (increasing) ids, a token issued for a stored user whose id `str` can write, and whose encoding has no whitespace, sent as `Bearer <token>`, resolves to that user before `exp` and gives 401 "Token has expired" from `exp` on |
| `Scenarios.UnsignedTokenRejected` | app.py:62-88 | a `Bearer ` header whose extracted token (every prefix removed, then stripped) the secret never signed gives 401 "Token is invalid", whatever the users table holds |
| `Scenarios.ForgedTokenRejected` | app.py:62-88 | `Bearer <t>` for a whitespace-free `<t>` the secret never signed gives 401 "Token is invalid" (a signed token padded with whitespace or a second prefix is extracted back to the signed token and accepted) |
| `Scenarios.SignupThenLogin` | app.py:112-132 | after a successful signup, login with the same password returns a token for the new user's id, given that `str` can write that id and that the hash check accepts a password against its own hash |
| `Scenarios.CreateThenList` | app.py:134-149 | with an authenticating header, create then list returns the new item, with its name and description, in the list; it is last in the model's insertion order (the query at line 148 has no `ORDER BY`) |
| `Scenarios.SignupLoginCreateList` | app.py:112-149 | the full flow: signup, login, then create and list with the returned token, ends with the created item in the list (last in insertion order), given that `str` can write the new id and the token has no whitespace |

## Left out

- Flask plumbing: routing, `request.get_json()`, `jsonify`, `g.current_user` and the `__main__` startup. Handlers take the JSON fields as parameters, so a missing field (a `KeyError`, surfacing as the framework's error page) and a non-JSON body are not modelled.
- The `/` welcome route, the `/healthz` database probe and the `/external` outbound HTTP call: these are outside the authentication core.
- Tracing, metrics and logging. A failure inside the logging or tracing calls within the `try` (which would produce the 500 response) is not modelled.
- The database engine: the tables are in-memory sequences with auto-increment counters, in insertion order. Exceptions raised by a query inside the decorator's `try` (another source of the 500 response) are not modelled, and neither is concurrent access.
- JWT signing and verification: `encode` and `decode` are parameters. Whether `decode` behaves like the reference decoder `IdealDecode` is assumed by the end-to-end lemmas, not proved. The library's rule that `sub` must be a string is not modelled: a payload's `sub` is a string or absent.
- `encode` is assumed to emit tokens without whitespace, as a compact JWT does (base64url segments joined by `.`); `Scenarios.IssuedTokenResolvesToUser` and `Scenarios.SignupLoginCreateList` require it, because `strip()` would otherwise alter the token before decoding.
- Password hashing: the hash and the check are parameters. Salt randomness appears only as the hash parameter's one output. The end-to-end lemmas assume that the check accepts a password against its own hash.
- The clock: `now` is an integer number of seconds passed in. The library drops sub-second precision from `exp`, and the model works in whole seconds from the start.
- config.py: the secret, the algorithm and the token lifetime are parameters. `TokenService.DefaultAlgorithm` and `TokenService.DefaultExpireMinutes` record the defaults.
- The 4300-digit limit can be changed at run time (`sys.set_int_max_str_digits`); the model fixes it at the default.
- `Text.ParseInt` accepts only ASCII digits. Python's `int()` also accepts other Unicode decimal digits, so for a `sub` written in such digits the model answers 500 where Python would look up the user. Tokens issued by `create_token` never contain such digits.
