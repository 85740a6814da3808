# carbon-fastapi: the payload normaliser, the user store and the auth flow in Dafny

carbon-fastapi is a small web service. Users sign up and log in with a
password. A logged-in user sends source code and gets back an image of it,
drawn by the external Carbon renderer. This project models the three pieces of
sequential logic in the service and proves their properties:

- **Payload normaliser** (`src/images.py`, `script.py`). Every line feed of the
  code becomes `%250A`: the line feed percent-encoded, then percent-encoded a
  second time (RFC 3986, section 2.1). `theme` and `language` are popped from
  the caller's keyword arguments, with `Sethi` and `Python` as defaults, and
  the rest of the keyword arguments is merged over the result. Python
  dictionaries are shared and changed in place, so they are a class
  (`PyDict.Dict`), and the methods that change them say exactly how.
- **User store** (`src/db.py`). `create_user` looks the username up and then
  inserts. The `User` model has no unique constraint, so uniqueness depends on
  that lookup alone. The table is a class holding a sequence of records. Lemmas
  about the pure function `Db.CreateUserStep` cover the method.
- **Authentication** (`src/api.py`): sign-up, login with bearer-token issue,
  the token check, and the start-up configuration. They are modelled as
  early-exit functions over the table's records.

Foreign code is passed in as function-typed parameters:

- `hash` and `verify` stand for passlib's bcrypt. A salted hash differs from
  one call to the next, so each call gets its own `hash`.
- `encode` and `decode` stand for the jose JWT library. `decode` returns
  `None` where jose raises `JWTError`.
- `render` stands for the Carbon client.

The clock `datetime.utcnow()` becomes an integer `now`, in seconds. One
`timedelta(minutes=m)` is `60 * m` seconds.

`src/api.py` imports `get_user` from `src/db.py`, but `src/db.py` does not
define it. The model reads `get_user(name)` as the same lookup `create_user`
does: `User.get_or_none(username=name)`, which is `Db.GetOrNone`. That lookup
returns nothing, the single matching record, or raises `MultipleObjectsReturned`
when several records match, as the ORM does.

## Model

| member | source | states |
|---|---|---|
| `Newlines.CompatibleNewlines` | script.py:14-15 | the rewritten code contains no line feed |
| `Newlines.LengthGrowsByFourPerNewline` | script.py:9-15 | the rewritten code is longer by exactly four characters per line feed |
| `Newlines.UnchangedWithoutNewlines` | script.py:14-15 | code without a line feed is returned unchanged |
| `Newlines.DistributesOverConcat` | script.py:14-15 | rewriting `a + b` equals rewriting `a` and `b` separately and joining them, so each character is rewritten on its own and order is kept |
| `Newlines.Idempotent` | script.py:14-15 | rewriting twice gives the same result as rewriting once |
| `Newlines.TwoLines` | src/images.py:16 | `line1 + "\n" + line2` becomes `line1 + "%250A" + line2` when neither line has a line feed |
| `Newlines.DoubleDecodeRestoresCode` | src/images.py:7-8 | two rounds of percent-decoding turn the rewritten code back into the original, when the code has no `%` of its own; this is the double encoding the workaround relies on |
| `PyDict.Dict.Pop` | src/images.py:17-18 | `pop(key, default)` returns the stored value or the default, and removes only that key |
| `PyDict.Dict.Update` | src/images.py:20 | `update(other)` merges the other dictionary's entries; they win on shared keys |
| `PyDict.Dict.Get` | script.py:19 | `d[key]` returns the value when the key is present and otherwise fails with `KeyError(key)` |
| `PyDict.Dict.Set` | script.py:19 | `d[key] = value` changes that key and no other |
| `Images.Payload` | src/images.py:14-21 | the keys are `code`, `theme`, `language` plus the keys of kwargs; `code` is the escaped code unless kwargs has a `code` key, which then wins; `theme` and `language` come from kwargs, or default to `Sethi` and `Python`; every other kwargs entry is copied unchanged; empty kwargs give exactly `{code: escaped, theme: Sethi, language: Python}` |
| `Images.CreatePayload` | src/images.py:14-21 | returns a fresh dictionary equal to `Payload(code, kwargs)`; afterwards the caller's kwargs has lost exactly `theme` and `language` and nothing else |
| `Images.SecondCallFallsBackToDefaults` | src/images.py:17-18 | a second call with the same, already popped kwargs gets the default theme and language back, with the other entries unchanged |
| `Images.CreateCarbonImage` | src/images.py:24-30 | a `code` entry in the parameters is a TypeError; otherwise `outfile` is taken from the parameters (default `out.png`) and the renderer receives `Payload` of the remaining parameters; its result or error is passed through |
| `Script.CreateCarbonImage` | script.py:18-24 | without a `code` key it fails with `KeyError` and leaves the dictionary as it was; otherwise it rewrites only `payload["code"]` in place (same keys, every other value unchanged) and passes the render result through |
| `Db.GetOrNone` | src/db.py:47-48 | `None` exactly when no record has the name; a returned record is stored and has the name; the only error is `MultipleObjectsReturned` |
| `Db.UniqueLookupSucceeds` | src/db.py:47-48 | on a table with unique names the lookup never fails |
| `Db.UniqueLookupFinds` | src/db.py:47-48 | when names are unique, looking up the name of any stored record returns exactly that record |
| `Db.CreateUserStep` | src/db.py:44-56 | it succeeds exactly when no record has the name; on success it returns a record with the given name, `hash(password)` (not the plaintext) and the timestamp, and appends exactly that record; on failure the table is unchanged; it raises `UserExists` exactly when one record has the name |
| `Db.CreateUserKeepsNamesUnique` | src/db.py:44-56 | if names are unique before a call they are unique after it, and the only possible failure is `UserExists`; this holds because calls run one after another |
| `Db.SecondCreateRaisesUserExists` | src/db.py:47-56 | after a successful creation, creating the same name again raises `UserExists` and leaves the table as it was |
| `Db.UserTable.CreateUser` | src/db.py:44-56 | the method's result and new table are those of `CreateUserStep`; success appends exactly one record; failure leaves the records unchanged; unique names stay unique |
| `ApiConfig.OrDefault` | src/api.py:20 | `value or default`: a missing or empty value gives the default, any other value is kept |
| `ApiConfig.PythonInt` | src/api.py:21-23 | `int()` on a string: a string that is read as a number holds at least one decimal digit |
| `ApiConfig.ExpireMinutes` | src/api.py:21-23 | an unset or empty setting gives 30; any other setting gives its `int()` value as `PythonInt` models it, or fails with `InvalidExpireMinutes` exactly when that `int()` raises |
| `ApiConfig.LoadConfig` | src/api.py:19-23 | a missing `SECRET_KEY` fails first; a loaded configuration holds the secret, the algorithm (default `HS256`) and the expiry minutes |
| `ApiConfig.PythonIntReadsDecimal` | src/api.py:21-23 | `int()` as modelled reads back the decimal spelling of every natural number of at most 4300 digits |
| `ApiConfig.PythonIntReadsSignedDecimal` | src/api.py:21-23 | the same with a leading `+` or `-` sign, which gives the number or its negation |
| `ApiConfig.OverlongLiteralRefused` | src/api.py:21-23 | a well-formed digit string with more than 4300 digits is refused, as CPython's default `int()` digit limit does |
| `ApiConfig.ExpireMinutesCornerCases` | src/api.py:21-23 | unset or empty gives 30, `"0"` gives 0, a non-number fails |
| `Api.AuthenticateUser` | src/api.py:65-71 | a returned user is stored, has the name and passes `verify`; an unknown name gives `False` |
| `Api.AuthenticateOnUniqueTable` | src/api.py:65-71 | on a table with unique names it never fails, and it returns a user exactly when a stored user has the name and the password verifies |
| `Api.Lifetime` | src/api.py:76-79 | a non-zero delta is used as given; a missing or zero delta (falsy) gives 15 minutes |
| `Api.CreateAccessToken` | src/api.py:74-82 | the token is `encode` of the input claims with `exp` set to now + delta for a non-zero delta, or now + 15 minutes for a missing or zero delta, signed with the configured secret and algorithm |
| `Api.TokenClaims` | src/api.py:74-82 | the encoded claims are the input claims plus `exp`; every other claim is kept; `exp` is now + delta, or now + 15 minutes for a missing or zero delta |
| `Api.Login` | src/api.py:105-120 | a success has token type `bearer`, and its token encodes exactly `{sub: username, exp: now + 60 * minutes}`, or now + 15 minutes when the setting is 0; a failed authentication gives the 401 "Incorrect username or password" error |
| `Api.LoginOnUniqueTable` | src/api.py:109-115 | on a table with unique names login succeeds exactly when a stored user has the name and the password verifies; otherwise it gives the 401 login error |
| `Api.Subject` | src/api.py:93-95 | the username is present exactly when `sub` is present and is a string |
| `Api.GetCurrentUser` | src/api.py:85-102 | a success is a stored user whose name is the token's `sub`; a token that does not decode, or has no `sub`, or names no stored user gives the 401 credentials error |
| `Api.CurrentUserOnUniqueTable` | src/api.py:85-102 | on a table with unique names the 401 credentials error is raised exactly when decoding fails, `sub` is missing, or no stored user has that name, and it is the only error |
| `Api.SignupStep` | src/api.py:130-153 | a taken name fails and leaves the table unchanged, whatever the passwords are; for a new name, different passwords give 400 "The two passwords should match" and an unchanged table; equal passwords append `(name, hash(password), now)` and return only the username; a lookup error is never `UserExists` |
| `Api.SignupReportsTakenNameFirst` | src/api.py:137-148 | on a table with unique names a taken name gives 400 "User already exists" and an unchanged table, even when the two passwords differ |
| `Api.Signup` | src/api.py:130-153 | the method's result and new table are those of `SignupStep`; unique names stay unique |
| `Api.CreateCodeImage` | src/api.py:123-127 | with no bearer token the answer is 401 "Not authenticated"; a token that fails `GetCurrentUser` gives that error; nothing is rendered unless the token check succeeds; after a successful token check the result is that of `create_carbon_image` on the request's code and parameters |
| `Api.SignupLoginIdentifiesUser` | src/api.py:105-153 | for a new name: sign-up succeeds, login with the same password succeeds, and the token identifies exactly the newly stored user until it expires |
| `Api.WrongPasswordRefused` | src/api.py:109-115 | right after sign-up, a password that does not verify against the stored hash gives the 401 login error |
| `Api.ExpirySettingReachesToken` | src/api.py:116-119 | a setting of `"0"` gives tokens that live 15 minutes; an unset or empty setting gives 30 minutes |

## Left out

- Network and rendering: `validateBody`, `createURLString` and `get_response` are foreign library calls and network I/O. They are one `render` parameter. Nothing is claimed about validation rules or the URL format.
- bcrypt hashing and verification are the `hash` and `verify` parameters. The only property assumed is the one a lemma states in its `requires`: a password verifies against its own hash.
- JWT signing and decoding, including the signature and `exp` checks, are the `encode` and `decode` parameters. `Api.DecodesOwnTokens` names the property the flow lemma assumes: a token whose claims are exactly a string `sub` and an integer `exp`, the shape login issues, decodes to those claims until its `exp` second. The `exp` second itself counts as valid, because jose rejects a token only when `exp` is earlier than the current time. The assumption says nothing about other claim sets, which jose may refuse: one holding `aud` when no audience is given, an `nbf` in the future, a non-integer `iat` or a non-string `jti`.
- Importing `src/api.py`: `from .db import get_user, create_user` (src/api.py:15) raises ImportError, because `src/db.py` defines no `get_user`, so the module as written cannot be loaded and serves no request. The `Api` members model the evidently intended lookup `User.get_or_none(username=...)` (`Db.GetOrNone`) in its place.
- Dictionary order: Python dictionaries keep insertion order; Dafny maps do not. The order of the keys sent to the renderer is not modelled.
- `Newlines.DoubleDecodeRestoresCode`: assumes the code has no `%` of its own, because such a character would be decoded by the renderer too. How `createURLString` encodes it is foreign.
- Concurrency: async/await and the event loop are left out. Every operation runs to completion before the next one starts. Two sign-ups of the same name whose lookups both run before either insert would store two records, because `src/db.py:22` declares no unique constraint. The model does not cover that interleaving.
- Tortoise ORM setup (`init`, `register_tortoise`), dotenv, the argparse `main` of `src/db.py` and the `__main__` demo blocks are plumbing and I/O. The `id` primary key the ORM adds to every `User` row is not modelled.
- FastAPI's routing, request parsing, response status codes (201) and dependency injection are left out. The OAuth2 bearer dependency appears only as an optional token: `None` when the request carries no bearer token. The parsing of the `Authorization` header is not modelled.
- `Api.Subject`: a `sub` claim that is not a string gives the 401 credentials error. In the source jose's `jwt.decode` already rejects such a claim with `JWTClaimsError`, a `JWTError`, which src/api.py:97-98 turns into the same 401; the model folds that check of the `decode` stand-in into `Subject`.
- `ApiConfig.PythonInt`: models `int()` for ASCII whitespace, a sign, decimal digits and single underscores. Other Unicode digits and Unicode whitespace are not modelled. The 4300-digit limit is CPython's default since 3.11 (and 3.10.7); the limit that `PYTHONINTMAXSTRDIGITS` or `sys.set_int_max_str_digits` can set, and interpreters without a limit, are not modelled.
- `Api.TokenClaims`: integers are unbounded, so `now + delta` always succeeds. `datetime.utcnow() + expires_delta` raises OverflowError when the expiry falls after the year 9999 or, for a large negative delta, before the year 1 (src/api.py:77); that error is not modelled.
- `Api.CreateAccessToken`: the `encode`, `hash` and `verify` stand-ins are assumed never to raise. In the source, jose's `jwt.encode` raises `JWSError` at src/api.py:81 for an `ALGORITHM` it does not support (the setting is read unchecked at src/api.py:20) or for a key that does not fit the algorithm, such as a plain secret with RS256; bcrypt raises `NullPasswordError` for a password containing a NUL character, in both hashing and verification. Those requests answer 500 in the source, while the model's `Login`, `SignupStep` and `Api.SignupLoginIdentifiesUser` succeed or answer 401; `Api.LoginOnUniqueTable`'s "succeeds exactly when" holds only for settings and passwords the libraries accept.
- `Db.CreateUserStep`: the 255-character limit of the username column (`CharField(max_length=255)`, src/db.py:22) is not modelled. Tortoise's length validator refuses a longer username when it is written, so `create_user` raises `ValidationError` there (and newer Tortoise versions also refuse it as a lookup argument), while the model stores it; the sign-up half of `Api.SignupLoginIdentifiesUser` holds only for usernames of at most 255 characters.
- `Api.Login`: `timedelta(minutes=m)` raises OverflowError when m minutes exceed 999999999 days (src/api.py:116). A huge `ACCESS_TOKEN_EXPIRE_MINUTES` then fails every login that passes authentication (a failed authentication still gives the 401 of src/api.py:110-115); the model issues a token instead.
- Time has whole-second precision. Sub-second `timedelta` values and the microseconds of `datetime.utcnow()` are not modelled. jose also drops them when it encodes `exp`.
- tests/test_api.py calls `/users/me` endpoints that `src/api.py` does not define, so it is not used as evidence.
