# Verified model of the task manager's authentication core

This project models, in Dafny, the authentication and access-control core of a
small Flask task-management backend (`backend/src/auth.py`) and its request
helpers (`backend/src/utils.py`), and proves properties of that model.

- **Credential store.** The module-level `users` dict and `user_id_counter` become
  the fields of class `Directory.UserDirectory`. The dict's key insertion order is
  kept as an `ids` sequence, because `create_user` and `authenticate_user` scan
  `users.values()` in that order. `initialize_admin`, `create_user`,
  `authenticate_user` and `get_user_by_id` are members of the class. Each
  mutating or scanning method is proved against a specification function on
  values in module `Credentials` (`Bootstrap`, `Register`, `Authenticate`).
  The store invariant `Credentials.Consistent` says four things:
  - ids are listed in increasing order;
  - every key is below the counter and equals its record's `id`;
  - usernames are pairwise distinct;
  - emails are pairwise distinct.
- **Password hashing.** bcrypt is represented by two parameters:
  - `hashpw(password, salt)` computes a digest; the random salt is an input;
  - `checkpw(password, digest)` checks one.
- **Request guards.** `token_required` and `admin_required` are one pure function,
  `Guards.Authorize`, with a `requireAdmin` flag. Its inputs are:
  - the optional `Authorization` header;
  - the JWT library's decoder, as a function returning a payload or one of the two
    exception families.
- **Helpers.** `validate_request_data` and `format_response` are pure functions
  in module `Utils`. Python values are the `Values.Value` datatype, with
  Python truthiness.
- **Shared modules.** Modules `Wrappers` and `Text` hold `Option`/`Result` and
  the string operations: `str.split` with a one-character separator,
  `str.join`, and substring test.

Behaviour of the code worth knowing, all of it modelled as written:
- the scheme word of the `Authorization` header is never checked, so
  `"Basic t"` is treated like `"Bearer t"` (`Guards.SchemeIgnored`);
- a header without a space is answered "Invalid authorization header
  format". `"Bearer "` or a double space yields an empty token, answered
  "Authentication token is missing" (`Guards.EmptyTokenIsMissing`);
- a decoded payload that is an empty object is falsy in Python and is
  answered "Invalid or expired token";
- registering a taken username reports "Email already exists" instead when an
  earlier record in insertion order has the new email
  (`Credentials.ClashFirst`, `Credentials.RegisterUsernameTwice`);
- the administrator is created when the module is loaded
  (`Directory.UserDirectory.Load`).

## Model

| member | source | states |
|---|---|---|
| `Text.Split` | backend/src/auth.py:85 | `split(" ")` yields at least one field, at least two exactly when the header contains a space, and no field contains the separator |
| `Text.JoinSplit` | backend/src/auth.py:85 | joining the fields of a split with the separator gives back the original string |
| `Text.SplitJoin` | backend/src/auth.py:85 | splitting a join of separator-free fields gives back the fields |
| `Text.Join` | backend/src/utils.py:33 | `", ".join(...)` starts with the first name joined |
| `Text.Contains` | backend/tests/test_utils.py:51-52 | `t in s` on strings: the empty string is in every string, and no string longer than `s` is in it |
| `Values.Truthy` | backend/src/utils.py:19 | a value is falsy exactly when it is `None`, `False`, `0`, `""`, `[]` or `{}` |
| `Text.JoinContainsEach` | backend/src/utils.py:33 | every field of `", ".join(...)` occurs in the joined string |
| `Guards.DecodeToken` | backend/src/auth.py:63-72 | `decode_token` is `None` exactly when the decoder raised (expired or invalid alike), otherwise the decoded payload |
| `Guards.ExtractToken` | backend/src/auth.py:84-87 | `split(" ")[1]` fails (the `IndexError` path) exactly when the header has no space, and the token never contains a space |
| `Guards.FieldAfterWord` | backend/src/auth.py:85 | after a space-free word and a space, the first field of the rest is the second field of the whole header |
| `Guards.TokenIsSecondField` | backend/src/auth.py:85 | an extracted token is the header's second field: after a space-free word and one space, and followed by nothing or a space |
| `Guards.SecondFieldIsToken` | backend/src/auth.py:85 | conversely, the second field of a header is exactly the token extracted |
| `Guards.TokenAfterAnyWord` | backend/src/auth.py:85 | whatever space-free word precedes the first space, the token is the first field of what follows it |
| `Guards.IsAdmin` | backend/src/auth.py:129 | a payload that passes the role check is never an empty (falsy) object |
| `Guards.AdminRoleOnly` | backend/src/auth.py:129 | only the "role" entry decides the role check, and only the string "admin" passes it |
| `Guards.Authorize` | backend/src/auth.py:74-137 | absent header or empty token: 401 "Authentication token is missing"; header without a space: 401 "Invalid authorization header format"; a non-empty token that fails to decode, or decodes to an empty payload: 401 "Invalid or expired token"; 403 "Admin access required" only in the admin variant; the handler runs exactly when a non-empty token decodes to a non-empty payload (with role "admin" in the admin variant), and receives that payload |
| `Guards.SchemeIgnored` | backend/src/auth.py:82-87 | the outcome for `"<word> <rest>"` is the same as for `"Bearer <rest>"`: the scheme is not checked |
| `Guards.EmptyTokenIsMissing` | backend/src/auth.py:85-90 | `"<word> "` and `"<word>  <rest>"` are answered 401 "Authentication token is missing" |
| `Guards.ErrorKindsCollapse` | backend/src/auth.py:93-95 | two decoders that differ only in which exception they raise give the same outcome |
| `Guards.AdminNarrowsToken` | backend/src/auth.py:105-137 | `admin_required` agrees with `token_required` except that it answers 403 exactly where `token_required` would run the handler for a non-admin payload |
| `Credentials.WithoutPassword` | backend/src/auth.py:167 | the public record keeps the id, username, email, role and creation time of the stored one |
| `Credentials.StrippedEqual` | backend/src/auth.py:167 | two records look the same once stripped exactly when they differ at most in their digest |
| `Credentials.Consistent` | backend/src/auth.py:145-164 | in a store that keeps the invariant, the counter is not yet a key, so the next insertion adds a new key |
| `Credentials.Clash` | backend/src/auth.py:145-149 | the scan finds no error exactly when no listed record has the username or the email; "Username already exists" or "Email already exists" each name a record that has that username or email |
| `Credentials.ClashByKey` | backend/src/auth.py:145-149 | the scan over the insertion order sees exactly the stored records |
| `Credentials.ClashFirst` | backend/src/auth.py:145-149 | the first clashing record in insertion order decides the error, its username tested before its email |
| `Credentials.InsertKeepsConsistent` | backend/src/auth.py:152-164 | storing a record with fresh username and email under the counter, then incrementing the counter, keeps the store invariant |
| `Credentials.Register` | backend/src/auth.py:140-168 | `create_user` fails exactly when a stored user has the username or the email, and then changes nothing. On success the new id is the old counter, the counter grows by one, exactly that key is added with role "user" and the digest of the password, the other records are unchanged, the result is the stored record without its password, and the invariant is kept |
| `Credentials.Bootstrap` | backend/src/auth.py:31-44 | `initialize_admin` leaves a non-empty store unchanged; an empty one gains exactly the "admin" record under the counter, with the counter incremented; afterwards the store is never empty and the invariant holds |
| `Credentials.BootstrapIdempotent` | backend/src/auth.py:31-44 | a second `initialize_admin` changes nothing |
| `Credentials.LookupIn` | backend/src/auth.py:174-178 | the username scan finds nothing exactly when no listed record has the username, and otherwise a record with that username |
| `Credentials.LookupFindsFirst` | backend/src/auth.py:174-178 | the scan returns the first record in insertion order with that username |
| `Credentials.Authenticate` | backend/src/auth.py:171-189 | every failure is "Invalid username or password", whether the username is unknown or the password is wrong; a success returns a user with that username |
| `Credentials.AuthenticateUnique` | backend/src/auth.py:171-189 | in a consistent store, login succeeds exactly when the password checks against that user's digest, and returns that user without the digest |
| `Credentials.RegisterUsernameTwice` | backend/src/auth.py:145-147 | registering a username that was just registered fails and changes nothing; the error is "Username already exists" unless an earlier user has the new email |
| `Credentials.RegisterEmailTwice` | backend/src/auth.py:148-149 | registering a just-registered email under a new username fails with "Email already exists" and changes nothing |
| `Credentials.LoginAfterRegister` | backend/src/auth.py:140-189 | if the checker accepts every digest of the same password, logging in right after registering succeeds and returns the registered user, with role "user" and the old counter as id |
| `Directory.UserDirectory.constructor` | backend/src/auth.py:16-17 | the store starts with no users and the counter at 1 |
| `Directory.UserDirectory.Load` | backend/src/auth.py:47-48 | after module load the store holds exactly the admin under id 1 and the counter is 2 |
| `Directory.UserDirectory.InitializeAdmin` | backend/src/auth.py:31-44 | the new state is `Bootstrap` of the old one and the invariant is kept |
| `Directory.UserDirectory.FindClash` | backend/src/auth.py:145-149 | the loop over the records in insertion order, with early returns, computes `Clash` and changes nothing |
| `Directory.UserDirectory.CreateUser` | backend/src/auth.py:140-168 | the uniqueness loop, then counter-then-insert, computes `Register`: new state and result, invariant kept |
| `Directory.UserDirectory.AuthenticateUser` | backend/src/auth.py:171-189 | the loop with early exit computes `Authenticate` and changes nothing |
| `Directory.UserDirectory.GetUserById` | backend/src/auth.py:192-197 | `None` exactly for an absent id, otherwise the stored record without its password, whose id is the one asked for |
| `Utils.MissingFields` | backend/src/utils.py:30 | a name is in the missing list exactly when it is required and not a key of the data |
| `Utils.MissingFieldsAppend` | backend/src/utils.py:30 | the missing list keeps the order of the required fields: the filter distributes over concatenation |
| `Utils.ValidateRequestData` | backend/src/utils.py:28-35 | `True` exactly when every required field is a key of the data, then with no message; otherwise "Missing required fields: " followed by the missing names joined by ", " |
| `Utils.ValidationNamesMissing` | backend/tests/test_utils.py:44-52 | every missing field's name appears in the error message |
| `Utils.FormatResponse` | backend/src/utils.py:12-25 | the response always has `status` (default "success") and `timestamp`; it has `message` exactly when the message is truthy and `data` exactly when data is not None, both passed through unchanged, and no other key |

## Left out

- bcrypt (`hash_password`, `verify_password`, backend/src/auth.py:20-27): a foreign library with a random salt. The model takes `hashpw` and `checkpw` as parameters and the salt as an input.
- JWT (`generate_token`, `jwt.decode`, backend/src/auth.py:51-72): signing, expiry and the secret key live in a foreign library. The guards take the decoder as a parameter; `generate_token` is not modelled.
- Wall-clock reads (`datetime.now`, `datetime.utcnow`, `get_timestamp` in backend/src/utils.py:7-9): timestamps are inputs.
- The Flask plumbing is not modelled. The `Authorization` header is an optional string. `jsonify` responses are a status and a message. Calling the wrapped handler and setting `request.current_user` become the `RunHandler` outcome carrying the payload.
- backend/src/app.py, backend/src/config.py and the frontend are not part of this model: routes, configuration constants and UI only.
- Concurrency: the source mutates its dict without any lock, and so does the model.
- Python dynamic typing: usernames, emails and passwords are strings and ids are integers. `validate_request_data` receives a dict; other `data` values, on which Python raises or uses other membership rules, are not modelled.
- Floats are not a `Values.Value`. The key order of the dict built by `format_response` is not modelled: the response is a `map`.
- Credentials.Register: `hash_password` is total here. In the source it can raise: on a password that cannot be encoded as UTF-8 (a lone surrogate), or on one that newer bcrypt releases reject as too long. That raise comes after `user_id_counter` has been incremented (backend/src/auth.py:153, 159), so the source then skips an id without storing a user. The model does not capture that path, and Dafny strings cannot hold lone surrogates.
- Directory.UserDirectory.CreateUser: the same raise of `hash_password` between the counter increment and the insertion is not modelled.
- Credentials.Authenticate: `checkpw` is total here. In the source, `verify_password` can raise on such a password, and only when the username exists (backend/src/auth.py:184). An unknown username still gets "Invalid username or password". The model does not capture that difference.
- Directory.UserDirectory.AuthenticateUser: the same raise of `verify_password` is not modelled.
- `Credentials.Authenticate`: only the result is modelled, not the timing difference between an unknown user (no bcrypt call) and a wrong password.
