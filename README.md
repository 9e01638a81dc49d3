# music-share: OTP bookkeeping and table names, in Dafny

This project models two parts of the music-share backend (a FastAPI and
SQLAlchemy service that signs users in by phone number and a one-time
password).

**OTP bookkeeping over the `users` and `otp_requests` tables.**
- `UserModels.Db` holds both tables as sequences of rows. Its `Valid()` is the
  schema's constraints:
  - user ids and phone numbers are unique;
  - every OTP request refers to an existing user;
  - the partial unique index on pending requests holds, read as declared.
- `Services.Service.CreateOtpRequest` is `create_otp_request`. A loop expires
  every request of the user in place. It then builds a new pending request
  from six digits and `now + 10 minutes`.
- `UsersApi.CreateOtp` is the `POST /request_otp` handler. It searches the
  user table for the normalised phone number and appends a PENDING user when
  none is found.

**Table-name derivation.**
- `StringUtils.CamelToSnake` models `camel_to_snake` as its two `re.sub`
  scans followed by `.lower()`:
  - each scan runs left to right and resumes after each match;
  - `.` matches anything but a line feed;
  - `[a-z]+` is greedy.
- The model is proved equal to `Underscored`, an independent definition that
  decides one character at a time whether an underscore goes before it.
- `CoreModels` builds on it:
  - `__tablename__` is `TableName`;
  - the `ForeignKey` target string and its cascades are `ForeignKey`;
  - the `Enum` value list is `EnumColumn`.
- Concrete results are proved: `OAuthToken` maps to `o_auth_tokens`, and
  `OAuthToken.user_id` targets `spotify_accounts.id`.

Some things are parameters or are modelled abstractly:
- **Parameters:** the current time, the six random digits, the ids the
  database generates, and the phone-number normaliser (`phone_utils.format`,
  a function to `Option<string>` that is `None` when the library rejects the
  input).
- **Ids and time:** ids are natural numbers and timestamps are integer
  microseconds.
- **Model classes** are represented by their class names.

The model follows the code as written, including where its names and schema
suggest otherwise:
- The new OTP request is built but never added to the session, so it is not
  stored.
- The partial unique index covers `status` alone, not (user, status).
- The bulk update expires every row of the user, with no filter on status.
- `verify_otp` has no behaviour.

The first two are listed under Findings.

## Model

| member | source | states |
|---|---|---|
| StringUtils.ToLower | core/utils/string_utils.py:7 | `.lower()` on one character: an ASCII upper-case letter becomes its lower-case letter, every other character is unchanged (non-ASCII letters are not folded), and the result is never ASCII upper case |
| StringUtils.Lower | core/utils/string_utils.py:7 | `.lower()` keeps the length and lower-cases position by position |
| StringUtils.FirstPass | core/utils/string_utils.py:6 | the first `re.sub` scan, pattern `(.)([A-Z][a-z]+)`: it never shortens its input and keeps the first character first; what it inserts is stated by `PassesAreUnderscored` |
| StringUtils.SecondPass | core/utils/string_utils.py:7 | the second `re.sub` scan, pattern `([a-z0-9])([A-Z])`: it never shortens its input and keeps the first character first |
| StringUtils.LowerRun | core/utils/string_utils.py:6 | the greedy `[a-z]+`: the longest all-lower-case prefix, so the next character, if any, is not lower case |
| StringUtils.CamelToSnake | core/utils/string_utils.py:4-7 | the two scans and `.lower()` equal the lower-cased reference `Underscored`; the output has no upper-case letter; a non-empty output starts with the lower-cased first input character (no underscore before it) |
| StringUtils.PassesAreUnderscored | core/utils/string_utils.py:6-7 | the first scan (`(.)([A-Z][a-z]+)`) then the second (`([a-z0-9])([A-Z])`) insert exactly these underscores: one before an upper-case letter whose predecessor is a lower-case letter or digit, or whose predecessor is not a line feed and whose successor is lower case |
| StringUtils.PassesAfterLower | core/utils/string_utils.py:6-7 | the same agreement when a lower-case letter or digit precedes the input, so the second scan fires before an upper-case first character |
| StringUtils.PassesOverMatch | core/utils/string_utils.py:6 | the agreement over a first-scan match, which consumes the character, the upper-case letter and its whole run of lower-case letters |
| StringUtils.CamelToSnakeOnlyInsertsUnderscores | core/utils/string_utils.py:6-7 | removing every `_` from the output gives the lower-cased input without its `_`; the output is at least as long as the input |
| StringUtils.CamelToSnakeUnchanged | core/utils/string_utils.py:6-7 | an input without upper-case letters is returned unchanged |
| StringUtils.CamelToSnakeKeepsOtherChars | core/utils/string_utils.py:6-7 | a character that is neither a letter nor `_` occurs in the output exactly when it occurs in the input |
| StringUtils.CamelToSnakeOneWord | core/utils/string_utils.py:4-7 | one capitalised word is only lower-cased |
| StringUtils.CamelToSnakeTwoWords | core/utils/string_utils.py:4-7 | two capitalised words, the second of two or more letters, are lower-cased and joined by one `_` |
| StringUtils.CamelToSnakeThreeWords | core/utils/string_utils.py:4-7 | likewise for three words, where the first may be a single capital as in `OAuthToken` |
| StringUtils.CamelToSnakeUser | core/utils/string_utils.py:4-7 | `User` becomes `user` |
| StringUtils.CamelToSnakeOtpRequest | core/utils/string_utils.py:4-7 | `OtpRequest` becomes `otp_request` |
| StringUtils.CamelToSnakeSpotifyAccount | core/utils/string_utils.py:4-7 | `SpotifyAccount` becomes `spotify_account` |
| StringUtils.CamelToSnakeOAuthToken | core/utils/string_utils.py:4-7 | `OAuthToken` becomes `o_auth_token` |
| StringUtils.Plural | core/utils/string_utils.py:10-11 | the name followed by one `s`: length plus one, the name as prefix |
| CoreModels.TableName | core/db/models.py:55-58 | the table name is `plural(camel_to_snake(class name))`: no upper-case letter, ends in `s`, and without its underscores it is the lower-cased class name (without underscores) followed by `s` |
| CoreModels.TableNameDots | core/db/models.py:55-58 | a table name contains a `.` exactly when the class name does |
| CoreModels.PkFieldName | core/db/models.py:68 | `legacy or "id"`: a given non-empty legacy name is used, a missing or empty one falls back to `id` |
| CoreModels.ForeignKey | core/db/models.py:62-73 | the target is `<table of to>.<pk field>`, and both cascades are `CASCADE` |
| CoreModels.TargetParts | core/db/models.py:70 | reading a target back: no part without a `.`; otherwise table and column rejoin to the target and the column has no `.` |
| CoreModels.ForeignKeyTargetParts | core/db/models.py:68-70 | for dot-free class and legacy names, the target splits back into exactly the referenced table and the primary-key column |
| CoreModels.EnumColumn | core/db/models.py:76-81 | the enum column stores the members' values (not names) in declaration order and is non-native |
| CoreModels.MemberWithValue | core/db/models.py:80 | a stored string reads back as a member with that value, or as nothing when no member has it |
| CoreModels.EnumColumnRoundTrip | core/db/models.py:79-80 | with distinct values, the value stored for each member reads back as that member |
| CoreModels.TableNameUser | core/db/models.py:55-58 | `User` is stored in `users` |
| CoreModels.TableNameOtpRequest | core/db/models.py:55-58 | `OtpRequest` is stored in `otp_requests` |
| CoreModels.TableNameSpotifyAccount | core/db/models.py:55-58 | `SpotifyAccount` is stored in `spotify_accounts` |
| CoreModels.TableNameOAuthToken | core/db/models.py:55-58 | `OAuthToken` is stored in `o_auth_tokens` |
| CoreModels.ForeignKeyToUser | users/db/models.py:24 | `ForeignKey(User)` (on `OtpRequest.user_id` and `SpotifyAccount.user_id`) targets `users.id` |
| CoreModels.ForeignKeyToSpotifyAccount | spotify/db/models.py:20 | `OAuthToken.user_id` targets `spotify_accounts.id` |
| UserModels.UserStatus.Value | users/db/models.py:10-13 | the string a user status stores: the member's name in lower case (`new`, `pending`, `complete`) |
| UserModels.OtpStatus.Value | users/db/models.py:20-22 | the string an OTP status stores: `pending` or `expired`, the member's name in lower case |
| UserModels.UserStatusFromValue | users/db/models.py:10-13 | a stored user status reads back as the member with that value; only `new`, `pending`, `complete` read back at all |
| UserModels.OtpStatusFromValue | users/db/models.py:20-22 | likewise for `pending` and `expired` |
| UserModels.UserStatusRoundTrip | users/db/models.py:10-13 | every user status reads back from its stored value |
| UserModels.OtpStatusRoundTrip | users/db/models.py:20-22 | every OTP status reads back from its stored value |
| UserModels.UserStatusColumn | users/db/models.py:10-16 | the user status column stores exactly `new`, `pending`, `complete` in that order, non-natively; the values are distinct and cover every member |
| UserModels.OtpStatusColumn | users/db/models.py:20-26 | the OTP status column stores exactly `pending`, `expired`, non-natively |
| UserModels.UserIds | users/db/models.py:24 | the set of user ids is exactly the ids of the rows (the target of the foreign key) |
| UserModels.UniquePhoneNumbers | users/db/models.py:15 | `unique=True` on `phone_number`: no two rows of `users` share a phone number |
| UserModels.CountPhoneUnique | users/db/models.py:15 | under the unique phone-number constraint, a phone number occurs once or not at all |
| UserModels.OtpUsersExist | users/db/models.py:24 | the foreign key on `user_id`: every OTP request names the id of a row of `users` |
| UserModels.AtMostOnePending | users/db/models.py:29-33 | the partial unique index as declared (its first argument is its name, so only `status` is indexed): at most one row of the whole table is PENDING |
| UserModels.AtMostOnePendingPerUser | users/db/models.py:29-33 | the index the declaration evidently intends: no two PENDING rows belong to the same user |
| UserModels.AtMostOnePendingPerUserCount | users/db/models.py:29-33 | the index as declared (on `status` alone) leaves every user at most one pending request |
| UserModels.GlobalImpliesPerUser | users/db/models.py:29-33 | the index as declared implies the per-user one |
| UserModels.PerUserAllowsTwoPending | users/db/models.py:29-33 | the converse fails: one pending request for each of two users meets the per-user index and breaks the declared one |
| UserModels.CountPendingAppend | users/db/models.py:29-33 | appending a row adds one to a user's pending count exactly when the row is a pending request of that user |
| UserModels.Db.Valid | users/db/models.py:9-33 | the declared constraints of both tables: unique user ids and phone numbers, unique OTP ids, the foreign key and the index as declared |
| UserModels.Db.ValidIntended | users/db/models.py:9-33 | the same constraints with the per-user pending index in place of the declared one |
| UserModels.Db.constructor | users/db/models.py:9-33 | an empty database meets the declared and the intended constraints |
| Services.DigitChar | users/services.py:26 | `str` of a digit in 0..9 is the single decimal character of that value |
| Services.CodeOf | users/services.py:26 | the joined code has one character per digit, each that digit's character |
| Services.ParseCode | users/services.py:26 | reading a code back gives one digit per character, and fails exactly when some character is not a decimal digit |
| Services.CodeRoundTrip | users/services.py:26 | a code reads back as the digits it was made from |
| Services.ParseCodeRoundTrip | users/services.py:26 | a string of decimal digits is the code of the digits it reads back as |
| Services.CodeKeepsLeadingZeros | users/services.py:26 | leading zeros are kept: digits 0,0,7,0,0,1 give `007001` |
| Services.NewOtpRequest | users/services.py:22-27 | the new request has no id, the user's id, status PENDING, expiry `now` + 600000000 µs (10 minutes), and a 6-character decimal code that reads back as the drawn digits |
| Services.ExpireRow | users/services.py:17-21 | one row under the bulk update: a row of the user becomes EXPIRED, a row of another user is unchanged, and only `status` can differ |
| Services.ExpireAll | users/services.py:17-21 | the bulk update keeps the row count |
| Services.ExpireAllRows | users/services.py:17-21 | after the update each row of the user is EXPIRED, including ones already expired; other users' rows are unchanged; no modelled field but `status` changes |
| Services.ExpireAllNoPending | users/services.py:17-21 | after the update the user has no pending request |
| Services.ExpireAllIdempotent | users/services.py:17-21 | running the update twice equals running it once |
| Services.ExpireAllOtherCounts | users/services.py:17-21 | other users' pending counts are unchanged |
| Services.ExpireAllValid | users/services.py:17-21 | the update keeps the declared and the intended constraints of `otp_requests` |
| Services.AppendValidIntended | users/db/models.py:29-33 | inserting a pending row with a fresh id, for an existing user with no pending row, keeps the per-user constraints |
| Services.IssueValidIntended | users/services.py:17-28 | expire then insert (the intended operation) keeps the per-user constraints and leaves the user exactly one pending request |
| Services.DeclaredIndexRejectsIssue | users/db/models.py:29-33 | with the index as declared, that insert is refused whenever another user has a pending request |
| Services.Service.constructor | users/services.py:11-13 | the service keeps the session it is given |
| Services.Service.ExpireRequestsOf | users/services.py:17-21 | the row-by-row loop leaves the OTP table equal to `ExpireAll` of the old table and the users unchanged |
| Services.Service.CreateOtpRequest | users/services.py:15-28 | as written: the OTP table becomes `ExpireAll` of the old one with the same row count, users are unchanged, the constraints still hold, and the returned request is `NewOtpRequest` |
| Services.Service.IssueOtpRequest | users/services.py:15-28 | with the request added under a fresh id: the OTP table is the expired table plus that request, the per-user constraints hold, and the user has exactly one pending request |
| UsersApi.ValidateCreateOtpRequest | users/api/router.py:14-19 | the body holds the normalised phone number, and there is no body exactly when the normaliser rejects the input |
| UsersApi.FindUserByPhone | users/api/router.py:32 | the search finds nothing exactly when no user has the number; otherwise it returns the first user in table order with that number |
| UsersApi.GetOrCreateUser | users/api/router.py:32-37 | the `users` table after the get-or-create: the old rows come first, unchanged, and some user has the phone number |
| UsersApi.GetOrCreateUserRows | users/api/router.py:32-37 | with a user already there the table is unchanged; otherwise exactly one user is appended, with that number and status PENDING |
| UsersApi.GetOrCreateUserIdempotent | users/api/router.py:32-37 | a second get-or-create for the same number changes nothing |
| UsersApi.GetOrCreateUserValid | users/api/router.py:33-37 | with a fresh id the user constraints still hold and no user id disappears |
| UsersApi.GetOrCreateUserUnique | users/api/router.py:32-37 | afterwards exactly one user has the phone number |
| UsersApi.GetOrCreateUserKeepsOtps | users/api/router.py:26-39 | every OTP request still refers to an existing user; the OTP constraints, declared and intended, survive |
| UsersApi.CreateOtp | users/api/router.py:26-39 | the handler leaves the users table equal to the get-or-create of the old one, does not touch the OTP table, and keeps the constraints |
| UsersApi.RequestOtp | users/api/router.py:14-39 | a rejected phone number leaves the database untouched with no response; an accepted one is normalised before the lookup and handled as above |
| UsersApi.VerifyOtp | users/api/router.py:42-44 | `verify_otp` returns `None` |

## Left out

- StringUtils.ToLower: only ASCII upper-case letters are folded. Python's `str.lower` also folds non-ASCII letters.
- StringUtils.Lower: only ASCII letters are lower-cased. Python's `str.lower` also folds non-ASCII letters; `[A-Z]` and `[a-z]` in the patterns are ASCII ranges either way.
- `phone_utils.format` is a parameter. The `phonenumbers` library's parsing and E.164 formatting are not part of this model.
- The `spotify` client, its OAuth session and its token timestamps are not modelled. They are network code and floating-point time.
- Settings, the engine and session factory, the application and router wiring, and the pydantic base are not modelled. They are configuration.
- Services.ExpireAllRows: the bulk update also sets `updated_at` through its `onupdate=func.now()` (core/db/models.py:37). That column is not modelled, so "only `status` changes" is about the modelled fields.
- Services.ExpireRow: likewise, `updated_at` is not modelled.
- The `created_at` and `updated_at` debug columns and the server defaults (`gen_random_uuid()`, `now()`) are not modelled. Generated ids are parameters.
- Transactions and concurrency are not modelled. `db.begin()`, `commit()` and `refresh()` are one atomic step, concurrent requests are not modelled, and a failed commit is not modelled.
- Timestamps are unbounded integers. The `OverflowError` that `datetime` raises beyond year 9999 is not modelled.
- UsersApi.FindUserByPhone: `.first()` without `ORDER BY` returns some matching row. The model returns the first in table order. Under the unique phone-number constraint there is at most one match.
- CoreModels.TargetParts splits a target at its last `.`. Schema-qualified targets and the ORM's own parsing are not modelled.
- CoreModels.TableName takes a class name itself. Class objects and the declarative metaclass are not modelled.
- The `SpotifyAccount` and `OAuthToken` columns are not modelled, apart from their table names and the foreign keys on `user_id`. This includes the unique `SpotifyAccount.user_id`.
- Nothing in the router calls `create_otp_request`. The model keeps the two operations separate, as the code does.

## Findings

| source | as written | input that shows it | evidently intended | confidence | as-written member | corrected member |
|---|---|---|---|---|---|---|
| users/services.py:22-28 | the new `OtpRequest` is constructed but never added to the session, so the table keeps its rows and the user has no pending request | any call, e.g. a user with one pending request: afterwards that row is expired and nothing pending remains | add the request, so it is stored under a fresh id and is the user's only pending request | not executed | Services.Service.CreateOtpRequest (with Services.ExpireAllNoPending) | Services.Service.IssueOtpRequest (with Services.IssueValidIntended) |
| users/db/models.py:29-33 | `Index("user_id", "status", ...)` names the index `user_id` and indexes `status` alone, so the whole table can hold only one pending request | user 0 holds a pending request and user 1 requests a code: the second pending row breaks the index | a unique index over (`user_id`, `status`) where status is pending: one pending request per user | not executed | UserModels.AtMostOnePending (with Services.DeclaredIndexRejectsIssue, UserModels.PerUserAllowsTwoPending) | UserModels.AtMostOnePendingPerUser (with Services.IssueValidIntended) |
